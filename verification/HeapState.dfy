/** The heap as a value: the free list, the live blocks and the set of words ever added.  The
    operations are those of nutheap.c; what memory contains is left to module NutHeaps. */
module HeapState {
  import opened Bits
  import opened Options
  import opened HeapList

  datatype Heap = Heap(free: seq<Node>, live: map<nat, nat>, added: set<nat>, top: nat)

  ghost function Block(h: Heap, a: nat): Node
    requires a in h.live
  {
    Node(a, h.live[a])
  }

  ghost predicate Live(live: map<nat, nat>, w: nat) {
    exists a :: a in live && Node(a, live[a]).Has(w)
  }

  /** Live blocks lie apart from each other and from the free list. */
  ghost predicate LiveOk(h: Heap) {
    && (forall a :: a in h.live ==> NodeOk(Node(a, h.live[a]), h.top))
    && (forall a, b :: a in h.live && b in h.live && a < b ==> a + h.live[a] <= b)
    && (forall a :: a in h.live ==> Apart(h.free, Node(a, h.live[a])))
  }

  /** Every word added is free or in a live block, and no other word is. */
  ghost predicate Accounted(h: Heap) {
    forall w: nat :: w in h.added <==> Covers(h.free, w) || Live(h.live, w)
  }

  ghost predicate Inv(h: Heap) {
    WF(h.free, h.top) && LiveOk(h) && Accounted(h)
  }

  // Operations.

  function Position(l: seq<Node>, a: nat): (p: nat)
    ensures p <= |l|
  {
    if l != [] && l[0].addr < a then 1 + Position(l[1..], a) else 0
  }

  ghost function BestFit(l: seq<Node>, need: nat): Option<nat> {
    if i: nat :| IsBestFit(l, need, i) then Some(i) else None
  }

  ghost function AllocStep(h: Heap, need: nat): (Heap, Option<Node>) {
    match BestFit(h.free, need)
    case None => (h, None)
    case Some(i) =>
      if i < |h.free| && h.free[i].size >= need then
        var (l, b) := TakeFrom(h.free, i, need);
        (h.(free := l, live := h.live[b.addr := b.size]), Some(b))
      else (h, None)
  }

  ghost function Released(h: Heap, b: Node): Heap {
    h.(free := Insert(h.free, b, Position(h.free, b.addr)))
  }

  ghost function FreeStep(h: Heap, a: nat): Heap
    requires a in h.live
  {
    Released(h, Block(h, a)).(live := h.live - {a})
  }

  ghost function WordsOf(b: Node): set<nat> {
    set w: nat | w < b.End() && b.Has(w)
  }

  ghost function AddStep(h: Heap, b: Node): Heap {
    Released(h, b).(added := h.added + WordsOf(b))
  }

  /** The free node p that realloc may grow into: directly behind the block and large enough. */
  ghost predicate CanGrow(h: Heap, a: nat, need: nat)
    requires a in h.live
  {
    var p := Position(h.free, a);
    p < |h.free| && need > h.live[a] && h.free[p].size >= need - h.live[a] && Block(h, a).End() == h.free[p].addr
  }

  ghost function Grown(h: Heap, a: nat, need: nat): Heap
    requires a in h.live && CanGrow(h, a, need)
  {
    var (l, b) := TakeFrom(h.free, Position(h.free, a), need - h.live[a]);
    h.(free := l, live := h.live[a := h.live[a] + b.size])
  }

  ghost function Shrunk(h: Heap, a: nat, need: nat): Heap
    requires a in h.live && need <= h.live[a]
  {
    Released(h, Node(a + need, h.live[a] - need)).(live := h.live[a := need])
  }

  /** `need` is the new block size in words; the result is the block, if there is one. */
  ghost function ReallocStep(h: Heap, a: nat, need: nat): (Heap, Option<nat>)
    requires a in h.live
  {
    var have := h.live[a];
    if need > have then
      if CanGrow(h, a, need) then (Grown(h, a, need), Some(a))
      else
        // The rounded size goes through the allocator, which adds a header again.
        var (h1, r) := AllocStep(h, need + OVERHEAD_WORDS);
        if r.None? || a !in h1.live then (h1, None) else (FreeStep(h1, a), Some(r.value.addr))
    else if need + NODE_WORDS < have then
      (Shrunk(h, a, need), Some(a))
    else (h, Some(a))
  }

  // They keep the invariant.

  lemma {:induction false} PositionIs(l: seq<Node>, top: nat, a: nat)
    requires WF(l, top)
    ensures IsPosition(l, a, Position(l, a))
  {
    if l != [] && l[0].addr < a {
      SliceWF(l, top, 1, |l|);
      assert l[1..|l|] == l[1..];
      PositionIs(l[1..], top, a);
      var p := Position(l[1..], a);
      forall i | 0 <= i < |l| ensures (i < 1 + p ==> l[i].addr < a) && (i >= 1 + p ==> a <= l[i].addr) {
        if i > 0 { assert l[i] == l[1..][i - 1]; }
      }
    } else {
      forall i | 0 <= i < |l| ensures a <= l[i].addr {
        if i > 0 { assert l[0].End() < l[i].addr; }
      }
    }
  }

  /** A fit exists exactly when some node is large enough. */
  lemma {:induction false} FitExists(l: seq<Node>, need: nat, k: nat)
    requires k < |l| && l[k].size >= need
    ensures exists i: nat :: IsBestFit(l, need, i)
    decreases l[k].size, k
  {
    if j :| 0 <= j < |l| && need <= l[j].size && (l[j].size < l[k].size || (l[j].size == l[k].size && j < k)) {
      FitExists(l, need, j);
    } else {
      assert IsBestFit(l, need, k);
    }
  }

  lemma NotCoveredApart(l: seq<Node>, top: nat, b: Node)
    requires WF(l, top) && b.size > 0 && forall w: nat :: b.Has(w) ==> !Covers(l, w)
    ensures Apart(l, b)
  {
    forall i | 0 <= i < |l| ensures l[i].End() <= b.addr || b.End() <= l[i].addr {
      var w := if l[i].addr <= b.addr then b.addr else l[i].addr;
      assert l[i].Has(w) ==> Covers(l, w);
    }
  }

  lemma ApartNotCovered(l: seq<Node>, b: Node, w: nat)
    requires Apart(l, b) && b.Has(w)
    ensures !Covers(l, w)
  {
  }

  /** Taking words from the free list disturbs no block that lies apart from it. */
  lemma TakeFromApart(l: seq<Node>, top: nat, i: nat, need: nat, b: Node)
    requires WF(l, top) && i < |l| && 1 <= need <= l[i].size && Apart(l, b) && b.size > 0
    ensures Apart(TakeFrom(l, i, need).0, b)
    ensures TakeFrom(l, i, need).1.End() <= b.addr || b.End() <= TakeFrom(l, i, need).1.addr
  {
    TakeFromWF(l, top, i, need);
    var (l', t) := TakeFrom(l, i, need);
    forall w: nat | b.Has(w) ensures !Covers(l', w) {
      ApartNotCovered(l, b, w);
      TakeFromCovers(l, top, i, need, w);
    }
    NotCoveredApart(l', top, b);
  }

  lemma TakenApart(l: seq<Node>, top: nat, i: nat, need: nat)
    requires WF(l, top) && i < |l| && 1 <= need <= l[i].size
    ensures Apart(TakeFrom(l, i, need).0, TakeFrom(l, i, need).1)
    ensures var b := TakeFrom(l, i, need).1; b.addr == l[i].addr && need <= b.size && b.End() <= top
  {
    TakeFromWF(l, top, i, need);
    var (l', b) := TakeFrom(l, i, need);
    forall w: nat | b.Has(w) ensures !Covers(l', w) {
      TakeFromCovers(l, top, i, need, w);
    }
    NotCoveredApart(l', top, b);
  }

  ghost function Taken(h: Heap, i: nat, need: nat): Heap
    requires i < |h.free| && h.free[i].size >= need
  {
    var (l, b) := TakeFrom(h.free, i, need);
    h.(free := l, live := h.live[b.addr := b.size])
  }

  lemma TakenLive(h: Heap, i: nat, need: nat)
    requires WF(h.free, h.top) && LiveOk(h) && i < |h.free| && NODE_WORDS <= need <= h.free[i].size
    ensures LiveOk(Taken(h, i, need)) && TakeFrom(h.free, i, need).1.addr !in h.live
  {
    hide TakeFrom, WF;
    var h', b := Taken(h, i, need), TakeFrom(h.free, i, need).1;
    TakenApart(h.free, h.top, i, need);
    assert b.addr >= 1 by { SplitAt(h.free, h.top, i); }
    forall a | a in h.live
      ensures Apart(h'.free, Node(a, h.live[a])) && (b.End() <= a || a + h.live[a] <= b.addr)
    {
      TakeFromApart(h.free, h.top, i, need, Node(a, h.live[a]));
    }
  }

  lemma TakenKeeps(h: Heap, i: nat, need: nat)
    requires Inv(h) && i < |h.free| && NODE_WORDS <= need <= h.free[i].size
    ensures var b := TakeFrom(h.free, i, need).1;
      && Inv(Taken(h, i, need)) && b.addr !in h.live && b.size >= need
      && (forall w: nat :: b.Has(w) ==> Covers(h.free, w))
      && (forall w: nat :: Covers(Taken(h, i, need).free, w) <==> Covers(h.free, w) && !b.Has(w))
  {
    hide WF, Covers, LiveOk, TakeFrom;
    TakeFromWF(h.free, h.top, i, need);
    TakenLive(h, i, need);
    var h', b := Taken(h, i, need), TakeFrom(h.free, i, need).1;
    forall w: nat
      ensures b.Has(w) ==> Covers(h.free, w)
      ensures Covers(h'.free, w) <==> Covers(h.free, w) && !b.Has(w)
    {
      TakeFromCovers(h.free, h.top, i, need, w);
    }
    forall w: nat ensures w in h'.added <==> Covers(h'.free, w) || Live(h'.live, w) {
      TakeFromCovers(h.free, h.top, i, need, w);
      LiveAdd(h.live, b, w);
    }
  }

  /** How much of a node of `size` words goes to a request for `need`: all of it only when what remains
      could not hold a node. */
  function Cut(size: nat, need: nat): (c: nat)
    ensures need <= size ==> need <= c < need + NODE_WORDS
  {
    if size < need + NODE_WORDS then size else need
  }

  lemma AllocKeeps(h: Heap, need: nat)
    requires Inv(h) && need >= NODE_WORDS
    ensures Inv(AllocStep(h, need).0)
    ensures AllocStep(h, need).1.None? <==> forall i :: 0 <= i < |h.free| ==> h.free[i].size < need
    ensures AllocStep(h, need).1.None? ==> AllocStep(h, need).0 == h
    ensures AllocStep(h, need).1.Some? ==>
      var b := AllocStep(h, need).1.value;
      && b.addr !in h.live && b.size >= need && AllocStep(h, need).0.live == h.live[b.addr := b.size]
      && (exists i: nat :: IsBestFit(h.free, need, i) && b.addr == h.free[i].addr)
      && (forall w: nat :: b.Has(w) ==> Covers(h.free, w))
  {
    hide Inv, Covers, TakeFrom;
    if k :| 0 <= k < |h.free| && h.free[k].size >= need { FitExists(h.free, need, k); }
    var f := BestFit(h.free, need);
    if f.Some? {
      var i := f.value;
      assert IsBestFit(h.free, need, i);
      TakenKeeps(h, i, need);
      TakenIs(h.free, i, need);
    }
  }

  /** What an allocation takes: from the best fit, exactly the words needed, or the whole node when the
      rest could not be a node; everything else that was free stays free. */
  lemma AllocExactly(h: Heap, need: nat)
    requires Inv(h) && need >= NODE_WORDS && AllocStep(h, need).1.Some?
    ensures var (h', r) := AllocStep(h, need);
      && (exists i: nat :: IsBestFit(h.free, need, i) && r.value == Node(h.free[i].addr, Cut(h.free[i].size, need)))
      && need <= r.value.size < need + NODE_WORDS
      && h'.live == h.live[r.value.addr := r.value.size]
      && (forall w: nat :: Covers(h'.free, w) <==> Covers(h.free, w) && !r.value.Has(w))
  {
    hide Inv, Covers, TakeFrom;
    var i := BestFit(h.free, need).value;
    assert IsBestFit(h.free, need, i);
    TakenKeeps(h, i, need);
    TakenIs(h.free, i, need);
  }

  lemma LiveAdd(live: map<nat, nat>, b: Node, w: nat)
    requires b.addr !in live
    ensures Live(live[b.addr := b.size], w) <==> Live(live, w) || b.Has(w)
  {
    var live' := live[b.addr := b.size];
    if b.Has(w) { assert b.addr in live' && Node(b.addr, live'[b.addr]).Has(w); }
    if Live(live, w) {
      var a :| a in live && Node(a, live[a]).Has(w);
      assert a in live' && Node(a, live'[a]).Has(w);
    }
  }

  lemma LiveRemove(live: map<nat, nat>, top: nat, a: nat, w: nat)
    requires a in live
    requires forall b, c :: b in live && c in live && b < c ==> b + live[b] <= c
    ensures Live(live - {a}, w) <==> Live(live, w) && !Node(a, live[a]).Has(w)
  {
    var live' := live - {a};
    if Live(live', w) {
      var b :| b in live' && Node(b, live'[b]).Has(w);
      assert b in live && Node(b, live[b]).Has(w);
    }
    if Live(live, w) && !Node(a, live[a]).Has(w) {
      var b :| b in live && Node(b, live[b]).Has(w);
      assert b in live' && Node(b, live'[b]).Has(w);
    }
  }

  /** Releasing a block that lies apart from the free list. */
  lemma ReleaseOk(h: Heap, b: Node, w: nat)
    requires WF(h.free, h.top) && NodeOk(b, h.top) && Apart(h.free, b)
    ensures WF(Released(h, b).free, h.top)
    ensures Covers(Released(h, b).free, w) <==> Covers(h.free, w) || b.Has(w)
  {
    PositionIs(h.free, h.top, b.addr);
    InsertOk(h.free, h.top, b, Position(h.free, b.addr), w);
  }

  /** A block apart from the free list and from b stays apart from the list that includes b. */
  lemma ReleaseApart(h: Heap, b: Node, c: Node)
    requires WF(h.free, h.top) && NodeOk(b, h.top) && Apart(h.free, b)
    requires Apart(h.free, c) && c.size > 0 && (b.End() <= c.addr || c.End() <= b.addr)
    ensures Apart(Released(h, b).free, c)
  {
    ReleaseOk(h, b, 0);
    forall w: nat | c.Has(w) ensures !Covers(Released(h, b).free, w) {
      ReleaseOk(h, b, w);
      ApartNotCovered(h.free, c, w);
    }
    NotCoveredApart(Released(h, b).free, h.top, c);
  }

  lemma FreeKeeps(h: Heap, a: nat)
    requires Inv(h) && a in h.live
    ensures Inv(FreeStep(h, a))
    ensures forall w: nat :: Covers(FreeStep(h, a).free, w) <==> Covers(h.free, w) || Block(h, a).Has(w)
  {
    var h', b := FreeStep(h, a), Block(h, a);
    ReleaseOk(h, b, 0);
    forall c | c in h'.live ensures Apart(h'.free, Node(c, h'.live[c])) {
      ReleaseApart(h, b, Node(c, h.live[c]));
    }
    forall w: nat ensures Covers(h'.free, w) <==> Covers(h.free, w) || b.Has(w) { ReleaseOk(h, b, w); }
    forall w: nat ensures w in h'.added <==> Covers(h'.free, w) || Live(h'.live, w) {
      ReleaseOk(h, b, w);
      LiveRemove(h.live, h.top, a, w);
      assert b.Has(w) ==> Live(h.live, w);
    }
  }

  lemma AddKeeps(h: Heap, b: Node)
    requires Inv(h) && NodeOk(b, h.top) && forall w: nat :: b.Has(w) ==> w !in h.added
    ensures Inv(AddStep(h, b))
  {
    var h' := AddStep(h, b);
    assert Apart(h.free, b) by { NotCoveredApart(h.free, h.top, b); }
    ReleaseOk(h, b, 0);
    forall c | c in h.live ensures Apart(h'.free, Node(c, h.live[c])) {
      var n := Node(c, h.live[c]);
      var w := if c <= b.addr then b.addr else c;
      if n.Has(w) { assert Live(h.live, w); }
      ReleaseApart(h, b, n);
    }
    forall w: nat ensures w in h'.added <==> Covers(h'.free, w) || Live(h'.live, w) {
      ReleaseOk(h, b, w);
    }
  }

  // Realloc.

  /** The words a growing block takes over, and that they were free. */
  lemma GrownBlock(h: Heap, a: nat, need: nat)
    requires Inv(h) && a in h.live && CanGrow(h, a, need)
    ensures WF(Grown(h, a, need).free, h.top)
    ensures NodeOk(Node(a, Grown(h, a, need).live[a]), h.top)
    ensures var have := h.live[a];
      Grown(h, a, need).live[a] == have + Cut(h.free[Position(h.free, a)].size, need - have)
    ensures need <= Grown(h, a, need).live[a] < need + NODE_WORDS
    ensures forall w: nat :: Covers(h.free, w) <==>
      Covers(Grown(h, a, need).free, w) || (Node(a, Grown(h, a, need).live[a]).Has(w) && !Block(h, a).Has(w))
    ensures forall w: nat :: Covers(Grown(h, a, need).free, w) ==> !Node(a, Grown(h, a, need).live[a]).Has(w)
  {
    hide TakeFrom, Covers, WF, LiveOk, Accounted, Position;
    var p, miss := Position(h.free, a), need - h.live[a];
    GrownParts(h, a, need);
    TakenIs(h.free, p, miss);
    var (l, b) := TakeFrom(h.free, p, miss);
    forall w: nat
      ensures Covers(h.free, w) <==> Covers(l, w) || b.Has(w)
      ensures Covers(l, w) ==> !b.Has(w) && !Block(h, a).Has(w)
    {
      TakeFromCovers(h.free, h.top, p, miss, w);
      if Block(h, a).Has(w) { ApartNotCovered(h.free, Block(h, a), w); }
    }
  }

  lemma GrownParts(h: Heap, a: nat, need: nat)
    requires Inv(h) && a in h.live && CanGrow(h, a, need)
    ensures Apart(h.free, Block(h, a)) && WF(Grown(h, a, need).free, h.top)
    ensures NodeOk(Node(a, Grown(h, a, need).live[a]), h.top)
  {
    hide Covers, Accounted;
    var p, miss := Position(h.free, a), need - h.live[a];
    TakeFromWF(h.free, h.top, p, miss);
    TakenApart(h.free, h.top, p, miss);
    assert Apart(h.free, Node(a, h.live[a]));
  }

  lemma GrownRest(h: Heap, a: nat, need: nat)
    requires a in h.live && CanGrow(h, a, need)
    ensures var h' := Grown(h, a, need);
      h'.live == h.live[a := h'.live[a]] && h.live[a] <= h'.live[a] && h'.added == h.added && h'.top == h.top
  {
  }

  /** The enlarged block meets no other block, and no other block meets the free list. */
  lemma GrownApart(h: Heap, a: nat, need: nat, c: nat)
    requires Inv(h) && a in h.live && CanGrow(h, a, need) && c in h.live && c != a
    ensures var h' := Grown(h, a, need);
      Apart(h'.free, Node(c, h.live[c])) && (a + h'.live[a] <= c || c + h.live[c] <= a)
  {
    hide Grown, CanGrow, WF, Covers, Accounted, Apart;
    GrownBlock(h, a, need);
    GrownRest(h, a, need);
    var h', n := Grown(h, a, need), Node(c, h.live[c]);
    var big := Node(a, h'.live[a]);
    forall w: nat | n.Has(w) ensures !Covers(h'.free, w) && !big.Has(w) {
      ApartNotCovered(h.free, n, w);
      assert !Block(h, a).Has(w);
    }
    NotCoveredApart(h'.free, h.top, n);
    assert n.Has(c);
    assert c < a || !big.Has(c);
  }

  lemma GrowKeeps(h: Heap, a: nat, need: nat)
    requires Inv(h) && a in h.live && CanGrow(h, a, need)
    ensures Inv(Grown(h, a, need))
  {
    hide Grown, CanGrow, WF, Covers, Apart;
    GrownBlock(h, a, need);
    GrownRest(h, a, need);
    var h' := Grown(h, a, need);
    var big := Node(a, h'.live[a]);
    NotCoveredApart(h'.free, h.top, big);
    forall c | c in h.live && c != a
      ensures Apart(h'.free, Node(c, h.live[c])) && (big.End() <= c || c + h.live[c] <= a)
    {
      GrownApart(h, a, need, c);
    }
    assert LiveOk(h');
    LiveDisjoint(h);
    hide LiveOk;
    forall w: nat ensures w in h'.added <==> Covers(h'.free, w) || Live(h'.live, w) {
      LiveResize(h.live, a, big.size, w);
      assert Block(h, a).Has(w) ==> Live(h.live, w);
    }
  }

  lemma LiveResize(live: map<nat, nat>, a: nat, size: nat, w: nat)
    requires a in live
    requires forall b, c :: b in live && c in live && b < c ==> b + live[b] <= c
    ensures Live(live[a := size], w) <==> (Live(live, w) && !Node(a, live[a]).Has(w)) || Node(a, size).Has(w)
  {
    LiveRemove(live, 0, a, w);
    LiveAdd(live - {a}, Node(a, size), w);
    assert (live - {a})[a := size] == live[a := size];
  }

  lemma ShrinkLive(h: Heap, a: nat, need: nat)
    requires WF(h.free, h.top) && LiveOk(h) && a in h.live && NODE_WORDS <= need && need + NODE_WORDS < h.live[a]
    ensures LiveOk(Shrunk(h, a, need))
  {
    hide Insert, Position, WF;
    var h' := Shrunk(h, a, need);
    var tail := Node(a + need, h.live[a] - need);
    assert Apart(h.free, Block(h, a));
    assert Apart(h.free, tail) && NodeOk(tail, h.top);
    forall c | c in h'.live ensures Apart(h'.free, Node(c, h'.live[c])) {
      assert Apart(h.free, Node(c, h.live[c]));
      ReleaseApart(h, tail, Node(c, h'.live[c]));
    }
  }

  lemma ShrinkKeeps(h: Heap, a: nat, need: nat)
    requires Inv(h) && a in h.live && NODE_WORDS <= need && need + NODE_WORDS < h.live[a]
    ensures Inv(Shrunk(h, a, need))
  {
    hide Insert, Position, WF, Covers;
    var h' := Shrunk(h, a, need);
    var tail := Node(a + need, h.live[a] - need);
    assert Apart(h.free, Block(h, a));
    assert Apart(h.free, tail) && NodeOk(tail, h.top);
    LiveDisjoint(h);
    ShrinkLive(h, a, need);
    hide LiveOk, Apart;
    ReleaseOk(h, tail, 0);
    forall w: nat ensures w in h'.added <==> Covers(h'.free, w) || Live(h'.live, w) {
      ReleaseOk(h, tail, w);
      LiveResize(h.live, a, need, w);
      assert Block(h, a).Has(w) ==> Live(h.live, w);
    }
  }

  lemma LiveDisjoint(h: Heap)
    requires LiveOk(h)
    ensures forall b, c :: b in h.live && c in h.live && b < c ==> b + h.live[b] <= c
  {
  }

  /** Whatever path is taken, the invariant holds, the result is live and at least as large as asked
      for, every other block is as it was, and a failure leaves the heap unchanged. */
  lemma ReallocKeeps(h: Heap, a: nat, need: nat)
    requires Inv(h) && a in h.live && need >= NODE_WORDS
    ensures var (h', r) := ReallocStep(h, a, need);
      && Inv(h')
      && (r.None? ==> h' == h)
      && (r.Some? ==> r.value in h'.live && h'.live[r.value] >= need && (r.value == a || r.value !in h.live))
      && (forall c :: c in h.live && c != a ==> c in h'.live && h'.live[c] == h.live[c])
      && h'.added == h.added
  {
    hide WF, LiveOk, Accounted;
    if need > h.live[a] {
      if CanGrow(h, a, need) {
        GrowKeeps(h, a, need);
        GrownBlock(h, a, need);
      } else {
        AllocKeeps(h, need + OVERHEAD_WORDS);
        var (h1, r) := AllocStep(h, need + OVERHEAD_WORDS);
        if r.Some? { FreeKeeps(h1, a); }
      }
    } else if need + NODE_WORDS < h.live[a] {
      ShrinkKeeps(h, a, need);
    }
  }

  /** Which free node a block can grow into, told by addresses alone: the one that starts where the block
      ends. */
  lemma GrowsWhere(h: Heap, a: nat, need: nat)
    requires Inv(h) && a in h.live && need > h.live[a]
    ensures CanGrow(h, a, need) <==>
      exists i :: 0 <= i < |h.free| && h.free[i].addr == a + h.live[a] && h.free[i].size >= need - h.live[a]
    ensures CanGrow(h, a, need) ==> h.free[Position(h.free, a)].addr == a + h.live[a]
  {
    hide Accounted;
    PositionIs(h.free, h.top, a);
    var p := Position(h.free, a);
    if i :| 0 <= i < |h.free| && h.free[i].addr == a + h.live[a] && h.free[i].size >= need - h.live[a] {
      assert p <= i;
      Ordered(h.free, h.top, p, i);
    }
  }

  lemma Ordered(l: seq<Node>, top: nat, i: nat, j: nat)
    requires WF(l, top) && i <= j < |l|
    ensures i < j ==> l[i].End() < l[j].addr
  {
  }

  /** What realloc does, by the sizes before and after.  A block that must grow does so in place exactly
      when a large enough free node follows directly; else it moves to the best fit for one header more,
      or fails exactly when there is none.  A block with more than a node to spare is cut to size; any
      other stays as it is.  As every other block stays, this tells what is free afterwards. */
  lemma ReallocExactly(h: Heap, a: nat, need: nat)
    requires Inv(h) && a in h.live && need >= NODE_WORDS
    ensures var (h', r) := ReallocStep(h, a, need);
      var have := h.live[a];
      var follows := exists i :: 0 <= i < |h.free| && h.free[i].addr == a + have && h.free[i].size >= need - have;
      && (need > have && follows ==>
        && r == Some(a) && h'.live == h.live[a := h'.live[a]]
        && exists i ::
             && 0 <= i < |h.free| && h.free[i].addr == a + have
             && h'.live[a] == have + Cut(h.free[i].size, need - have))
      && (need > have && !follows ==>
        && (r.None? <==> forall i :: 0 <= i < |h.free| ==> h.free[i].size < need + OVERHEAD_WORDS)
        && (r.Some? ==> exists i: nat ::
              && IsBestFit(h.free, need + OVERHEAD_WORDS, i) && r.value == h.free[i].addr && r.value !in h.live
              && h'.live == h.live[r.value := Cut(h.free[i].size, need + OVERHEAD_WORDS)] - {a}))
      && (need + NODE_WORDS < have ==> r == Some(a) && h'.live == h.live[a := need])
      && (need <= have <= need + NODE_WORDS ==> r == Some(a) && h' == h)
  {
    hide WF, LiveOk, Accounted, Position, TakeFrom, BestFit, Covers, Released;
    var have := h.live[a];
    if need > have {
      GrowsWhere(h, a, need);
      if CanGrow(h, a, need) {
        GrownBlock(h, a, need);
        GrownRest(h, a, need);
      } else {
        AllocKeeps(h, need + OVERHEAD_WORDS);
        if AllocStep(h, need + OVERHEAD_WORDS).1.Some? { AllocExactly(h, need + OVERHEAD_WORDS); }
        hide AllocStep;
      }
    }
  }

  // Runs.

  datatype Op =
    | Add(region: Node)
    | Alloc(need: nat)
    | Free(addr: nat)
    | Realloc(addr: nat, size: nat)

  /** Regions are disjoint and hold at least a node; blocks passed in are live. */
  ghost predicate Allowed(h: Heap, op: Op) {
    match op
    case Add(b) => NodeOk(b, h.top) && forall w: nat :: b.Has(w) ==> w !in h.added
    case Alloc(need) => need >= NODE_WORDS
    case Free(a) => a in h.live
    case Realloc(a, need) => a in h.live && need >= NODE_WORDS
  }

  ghost function Step(h: Heap, op: Op): Heap
    requires Allowed(h, op)
  {
    match op
    case Add(b) => AddStep(h, b)
    case Alloc(need) => AllocStep(h, need).0
    case Free(a) => FreeStep(h, a)
    case Realloc(a, need) => ReallocStep(h, a, need).0
  }

  function Empty(top: nat): Heap {
    Heap([], map[], {}, top)
  }

  ghost function Run(top: nat, ops: seq<Op>): Option<Heap> {
    if ops == [] then Some(Empty(top))
    else
      var prev := Run(top, ops[..|ops| - 1]);
      if prev.Some? && Allowed(prev.value, ops[|ops| - 1]) then Some(Step(prev.value, ops[|ops| - 1])) else None
  }

  /** In every reachable state the free list is ordered, large-noded and gap-separated, live blocks are
      disjoint from it and from each other, and together they account for every word added. */
  lemma {:induction false} RunsKeep(top: nat, ops: seq<Op>)
    ensures Run(top, ops).Some? ==> Inv(Run(top, ops).value)
  {
    if ops == [] {
      assert forall w: nat :: !Covers([], w);
      assert forall w: nat :: !Live(map[], w);
    } else {
      RunsKeep(top, ops[..|ops| - 1]);
      var prev := Run(top, ops[..|ops| - 1]);
      var op := ops[|ops| - 1];
      if prev.Some? && Allowed(prev.value, op) {
        match op
        case Add(b) => AddKeeps(prev.value, b);
        case Alloc(need) => AllocKeeps(prev.value, need);
        case Free(a) => FreeKeeps(prev.value, a);
        case Realloc(a, need) => ReallocKeeps(prev.value, a, need);
      }
    }
  }

  ghost function FreeWords(h: Heap): set<nat> { set w | w in h.added && Covers(h.free, w) }

  ghost function LiveWords(h: Heap): set<nat> { set w | w in h.added && Live(h.live, w) }

  /** Conservation: no word is lost or owned twice. */
  lemma WordsConserved(h: Heap)
    requires Inv(h)
    ensures FreeWords(h) !! LiveWords(h) && FreeWords(h) + LiveWords(h) == h.added
    ensures |FreeWords(h)| + |LiveWords(h)| == |h.added|
  {
    forall w | w in FreeWords(h) ensures w !in LiveWords(h) {
      if a :| a in h.live && Node(a, h.live[a]).Has(w) { ApartNotCovered(h.free, Node(a, h.live[a]), w); }
    }
  }

  // What is available.

  function Sizes(l: seq<Node>): nat {
    if l == [] then 0 else Sizes(l[..|l| - 1]) + l[|l| - 1].size
  }

  function Largest(l: seq<Node>): nat {
    if l == [] then 0
    else
      var m := Largest(l[..|l| - 1]);
      if m < l[|l| - 1].size then l[|l| - 1].size else m
  }

  function RegionBytes(l: seq<Node>): nat {
    (4 * Largest(l) + U32 - 4) % U32
  }

  lemma {:induction false} LargestIs(l: seq<Node>)
    ensures forall i :: 0 <= i < |l| ==> l[i].size <= Largest(l)
    ensures l != [] ==> exists i :: 0 <= i < |l| && l[i].size == Largest(l)
  {
    if l != [] {
      var x, k := l[..|l| - 1], |l| - 1;
      LargestIs(x);
      forall i | 0 <= i < |l| ensures l[i].size <= Largest(l) { assert i < k ==> l[i] == x[i]; }
      if Largest(l) == l[k].size {
        assert l[k].size == Largest(l);
      } else {
        assert x == [] ==> Largest(x) == 0;
        var i :| 0 <= i < |x| && x[i].size == Largest(x);
        assert l[i].size == Largest(l);
      }
    }
  }

  /** `size <= NutHeapRootRegionAvailable` decides whether an allocation succeeds, except on an empty
      list, where the figure wraps and the test is wrong for every size that does not wrap itself.
      The four largest sizes wrap and get the least block there is. */
  lemma AllocSucceedsExactly(h: Heap, size: nat)
    requires Inv(h) && h.top <= U32 / 4 && Askable(size)
    ensures size <= U32 - 8 ==>
      ((AllocStep(h, Need(size)).1.Some? <==> size <= RegionBytes(h.free)) <==> h.free != [])
    ensures size > U32 - 8 ==> (AllocStep(h, Need(size)).1.Some? <==> h.free != [])
  {
    hide AllocStep, Largest, LiveOk, Accounted, Need;
    NeedIs(size);
    AllocKeeps(h, Need(size));
    LargestIs(h.free);
    if h.free == [] {
      LargestOfNone();
    } else {
      var k :| 0 <= k < |h.free| && h.free[k].size == Largest(h.free);
      assert NODE_WORDS <= h.free[k].size <= h.top;
      hide RegionBytes;
      if size <= U32 - 8 { RegionTest(h.free, size); }
    }
  }

  lemma RegionTest(l: seq<Node>, size: nat)
    requires size <= U32 - 8 && NODE_WORDS <= Largest(l) <= U32 / 4
    ensures size <= RegionBytes(l) <==> Need(size) <= Largest(l)
  {
    NeedCovers(size, Largest(l));
  }

  lemma LargestOfNone()
    ensures Largest([]) == 0
  {
  }

  lemma SizesStart(l: seq<Node>)
    ensures Sizes(l[..0]) == 0
  {
  }

  lemma SizesNext(l: seq<Node>, i: nat)
    requires i < |l|
    ensures Sizes(l[..i + 1]) == Sizes(l[..i]) + l[i].size <= Sizes(l)
  {
    assert l[..i + 1][..i] == l[..i];
    SizesOfPrefix(l, i + 1);
  }

  lemma LargestStart(l: seq<Node>)
    ensures Largest(l[..0]) == 0
  {
  }

  lemma LargestNext(l: seq<Node>, i: nat)
    requires i < |l|
    ensures var m := Largest(l[..i]); Largest(l[..i + 1]) == if m < l[i].size then l[i].size else m
  {
    assert l[..i + 1][..i] == l[..i];
  }

  lemma {:induction false} SizesOfPrefix(l: seq<Node>, i: nat)
    requires i <= |l|
    ensures Sizes(l[..i]) <= Sizes(l)
    decreases |l|
  {
    if i < |l| {
      SizesOfPrefix(l[..|l| - 1], i);
      assert l[..|l| - 1][..i] == l[..i];
    } else {
      assert l[..i] == l;
    }
  }

  ghost function CoveredBelow(l: seq<Node>, top: nat): set<nat> {
    set w: nat | w < top && Covers(l, w)
  }

  /** The words of a list are those of its last node and those of the rest. */
  lemma CoveredSplit(l: seq<Node>, top: nat)
    requires WF(l, top) && l != []
    ensures var x, n := l[..|l| - 1], l[|l| - 1];
      WF(x, top) && CoveredBelow(l, top) == CoveredBelow(x, top) + WordsOf(n) && CoveredBelow(x, top) !! WordsOf(n)
  {
    hide Covers, WF, Before, After;
    var x, n := l[..|l| - 1], l[|l| - 1];
    SplitAt(l, top, |l| - 1);
    assert l == x + [n] + [];
    forall w: nat ensures Covers(l, w) <==> Covers(x, w) || n.Has(w) {
      CoversJoin(x, n, [], w);
      CoversNone(w);
    }
    forall w: nat ensures !(Covers(x, w) && n.Has(w)) { ApartCovers(x, n, w); }
  }

  lemma {:induction false} CoveredCount(l: seq<Node>, top: nat)
    requires WF(l, top)
    ensures Sizes(l) == |CoveredBelow(l, top)|
  {
    if l == [] {
      assert CoveredBelow(l, top) == {};
    } else {
      hide CoveredBelow, WordsOf, WF;
      CoveredSplit(l, top);
      CoveredCount(l[..|l| - 1], top);
      WordsCount(l[|l| - 1].addr, l[|l| - 1].size);
    }
  }

  lemma CoversNone(w: nat)
    ensures !Covers([], w)
  {
  }

  lemma {:induction false} WordsCount(a: nat, n: nat)
    ensures |WordsOf(Node(a, n))| == n
  {
    if n == 0 {
      assert WordsOf(Node(a, n)) == {};
    } else {
      WordsCount(a, n - 1);
      var s, t := WordsOf(Node(a, n)), WordsOf(Node(a, n - 1));
      forall w: nat ensures w in s <==> w in t || w == a + n - 1 {
        assert Node(a, n).Has(w) <==> Node(a, n - 1).Has(w) || w == a + n - 1;
      }
      assert s == t + {a + n - 1};
    }
  }

  /** The node sizes add up to the free words, and these fit below top. */
  lemma SizesAreWords(h: Heap)
    requires Inv(h)
    ensures Sizes(h.free) == |FreeWords(h)| && Sizes(h.free) <= h.top
  {
    CoveredCount(h.free, h.top);
    var s := CoveredBelow(h.free, h.top);
    forall w: nat ensures w in s <==> w in FreeWords(h) {
      if Covers(h.free, w) {
        var i :| 0 <= i < |h.free| && h.free[i].Has(w);
        assert w < h.free[i].End() <= h.top;
      }
    }
    assert s == FreeWords(h);
    var all := WordsOf(Node(0, h.top));
    forall w | w in s ensures w in all { assert Node(0, h.top).Has(w); }
    CountSubset(s, all);
    WordsCount(0, h.top);
  }

  /** An allocation costs the free memory its block, less than one node more than it needs. */
  lemma AllocCost(h: Heap, need: nat)
    requires Inv(h) && need >= NODE_WORDS && AllocStep(h, need).1.Some?
    ensures var (h', r) := AllocStep(h, need);
      |FreeWords(h)| == |FreeWords(h')| + r.value.size && r.value.size < need + NODE_WORDS
  {
    hide AllocStep, Covers, WF, LiveOk;
    AllocExactly(h, need);
    AllocKeeps(h, need);
    AllocRest(h, need);
    var (h', r) := AllocStep(h, need);
    var b := r.value;
    forall w: nat ensures w in FreeWords(h) <==> w in FreeWords(h') || w in WordsOf(b) {
      assert b.Has(w) ==> w < b.End();
    }
    assert FreeWords(h) == FreeWords(h') + WordsOf(b);
    assert FreeWords(h') !! WordsOf(b);
    WordsCount(b.addr, b.size);
  }

  lemma {:induction false} CountSubset(s: set<nat>, t: set<nat>)
    requires s <= t
    ensures |s| <= |t|
  {
    assert t == s + (t - s);
  }

  // The free list depends only on which words are free.

  /** Free the blocks of `order`, one after the other. */
  ghost function FreeMany(h: Heap, order: seq<nat>): Heap
    requires forall i :: 0 <= i < |order| ==> order[i] in h.live
    requires forall i, j :: 0 <= i < j < |order| ==> order[i] != order[j]
    decreases |order|
  {
    if order == [] then h else FreeMany(FreeStep(h, order[0]), order[1..])
  }

  ghost predicate Listed(h: Heap, order: seq<nat>, w: nat)
    requires forall i :: 0 <= i < |order| ==> order[i] in h.live
  {
    exists i :: 0 <= i < |order| && Block(h, order[i]).Has(w)
  }

  lemma ListedFirst(h: Heap, g: Heap, order: seq<nat>, w: nat)
    requires order != [] && forall i :: 0 <= i < |order| ==> order[i] in h.live
    requires forall i :: 1 <= i < |order| ==> order[i] in g.live && g.live[order[i]] == h.live[order[i]]
    ensures Listed(h, order, w) <==> Block(h, order[0]).Has(w) || Listed(g, order[1..], w)
  {
    if Listed(h, order, w) {
      var i :| 0 <= i < |order| && Block(h, order[i]).Has(w);
      if i > 0 { assert Block(g, order[1..][i - 1]).Has(w); }
    }
    if Listed(g, order[1..], w) {
      var i :| 0 <= i < |order[1..]| && Block(g, order[1..][i]).Has(w);
      assert Block(h, order[i + 1]).Has(w);
    }
  }

  lemma FreeStepRest(h: Heap, a: nat)
    requires a in h.live
    ensures FreeStep(h, a).live == h.live - {a} && FreeStep(h, a).top == h.top && FreeStep(h, a).added == h.added
  {
  }

  lemma {:induction false} FreeManyCovers(h: Heap, order: seq<nat>, w: nat)
    requires Inv(h)
    requires forall i :: 0 <= i < |order| ==> order[i] in h.live
    requires forall i, j :: 0 <= i < j < |order| ==> order[i] != order[j]
    ensures Inv(FreeMany(h, order)) && FreeMany(h, order).top == h.top
    ensures Covers(FreeMany(h, order).free, w) <==> Covers(h.free, w) || Listed(h, order, w)
    decreases |order|
  {
    hide Inv, Covers, FreeStep;
    if order == [] {
      assert !Listed(h, order, w);
    } else {
      hide Listed;
      var h1 := FreeStep(h, order[0]);
      FreeStepRest(h, order[0]);
      FreeKeeps(h, order[0]);
      FreeManyCovers(h1, order[1..], w);
      ListedFirst(h, h1, order, w);
    }
  }

  /** Freeing the same blocks in any two orders gives the same free list. */
  lemma FreeOrderIrrelevant(h: Heap, x: seq<nat>, y: seq<nat>)
    requires Inv(h)
    requires forall i :: 0 <= i < |x| ==> x[i] in h.live
    requires forall i :: 0 <= i < |y| ==> y[i] in h.live
    requires forall i, j :: 0 <= i < j < |x| ==> x[i] != x[j]
    requires forall i, j :: 0 <= i < j < |y| ==> y[i] != y[j]
    requires forall a: nat :: a in x <==> a in y
    ensures FreeMany(h, x).free == FreeMany(h, y).free
  {
    FreeManyCovers(h, x, 0);
    FreeManyCovers(h, y, 0);
    forall w: nat ensures Covers(FreeMany(h, x).free, w) <==> Covers(FreeMany(h, y).free, w) {
      FreeManyCovers(h, x, w);
      FreeManyCovers(h, y, w);
      if Listed(h, x, w) {
        var i :| 0 <= i < |x| && Block(h, x[i]).Has(w);
        assert x[i] in y;
        var j :| 0 <= j < |y| && y[j] == x[i];
        assert Block(h, y[j]).Has(w);
      }
      if Listed(h, y, w) {
        var i :| 0 <= i < |y| && Block(h, y[i]).Has(w);
        assert y[i] in x;
        var j :| 0 <= j < |x| && x[j] == y[i];
        assert Block(h, x[j]).Has(w);
      }
    }
    Canonical(FreeMany(h, x).free, FreeMany(h, y).free, h.top);
  }

  /** Freeing every live block restores the one list in form that covers exactly the added words. */
  lemma FreeingAllRestores(h: Heap, order: seq<nat>, regions: seq<Node>)
    requires Inv(h)
    requires forall i :: 0 <= i < |order| ==> order[i] in h.live
    requires forall i, j :: 0 <= i < j < |order| ==> order[i] != order[j]
    requires forall a :: a in h.live ==> a in order
    requires WF(regions, h.top) && forall w: nat :: Covers(regions, w) <==> w in h.added
    ensures FreeMany(h, order).free == regions
  {
    FreeManyCovers(h, order, 0);
    forall w: nat ensures Covers(FreeMany(h, order).free, w) <==> Covers(regions, w) {
      FreeManyCovers(h, order, w);
      if a :| a in h.live && Node(a, h.live[a]).Has(w) {
        var i :| 0 <= i < |order| && order[i] == a;
        assert Block(h, order[i]).Has(w);
      }
      if Listed(h, order, w) {
        var i :| 0 <= i < |order| && Block(h, order[i]).Has(w);
        assert Live(h.live, w);
      }
    }
    Canonical(FreeMany(h, order).free, regions, h.top);
  }

  lemma LiveNotCovered(h: Heap, w: nat)
    requires LiveOk(h)
    ensures !(Live(h.live, w) && Covers(h.free, w))
  {
    if Live(h.live, w) {
      var a :| a in h.live && Node(a, h.live[a]).Has(w);
      ApartNotCovered(h.free, Node(a, h.live[a]), w);
    }
  }

  lemma AllocRest(h: Heap, need: nat)
    ensures AllocStep(h, need).0.top == h.top && AllocStep(h, need).0.added == h.added
  {
  }

  /** Freeing undoes allocating. */
  lemma AllocThenFree(h: Heap, need: nat)
    requires Inv(h) && need >= NODE_WORDS && AllocStep(h, need).1.Some?
    ensures var (h1, b) := AllocStep(h, need); b.value.addr in h1.live && FreeStep(h1, b.value.addr) == h
  {
    hide AllocStep, FreeStep, Covers, WF, LiveOk, Live;
    AllocKeeps(h, need);
    AllocRest(h, need);
    var (h1, r) := AllocStep(h, need);
    var b := r.value;
    FreeKeeps(h1, b.addr);
    FreeStepRest(h1, b.addr);
    var h2 := FreeStep(h1, b.addr);
    assert h2.live == h.live;
    forall w: nat ensures Covers(h2.free, w) <==> Covers(h.free, w) {
      LiveNotCovered(h, w);
      LiveNotCovered(h2, w);
    }
    Canonical(h2.free, h.free, h.top);
  }
}

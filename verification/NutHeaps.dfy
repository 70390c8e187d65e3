/** The heap operations of nutheap.c on word-addressed memory.  A pointer is a word number, 0 is NULL;
    a node at word a keeps its size in mem[a] and, while free, its link in mem[a + 1]; a block's user
    area starts at a + 1. */
module NutHeaps {
  import opened Bits
  import opened Options
  import opened HeapList
  import opened HeapState

  // Free lists in memory.

  function AddrAt(l: seq<Node>, i: nat): nat {
    if i < |l| then l[i].addr else 0
  }

  function LinkOf(m: seq<nat>, a: nat): nat
    requires a + 1 < |m|
  {
    m[a + 1]
  }

  ghost predicate InMemory(m: seq<nat>, l: seq<Node>) {
    forall i :: 0 <= i < |l| ==> l[i].addr + 1 < |m|
  }

  /** The list that starts at `root` is l. */
  ghost predicate Rep(m: seq<nat>, root: nat, l: seq<Node>) {
    && InMemory(m, l)
    && root == AddrAt(l, 0)
    && (forall i :: 0 <= i < |l| ==> m[l[i].addr] == l[i].size)
    && (forall i {:trigger LinkOf(m, l[i].addr)} :: 0 <= i < |l| ==> LinkOf(m, l[i].addr) == AddrAt(l, i + 1))
  }

  /** Node p at address a keeps its size and points at `next`. */
  ghost predicate Keeps(m: seq<nat>, n: Node, next: nat) {
    n.addr + 1 < |m| && m[n.addr] == n.size && LinkOf(m, n.addr) == next
  }

  /** Nodes i..j-1 of l give way to `mid`, at most one node, by rewriting one link. */
  lemma SpliceRep(m: seq<nat>, root: nat, l: seq<Node>, m': seq<nat>, root': nat, i: nat, j: nat, mid: seq<Node>)
    requires Rep(m, root, l) && |m'| == |m| && i <= j <= |l| && |mid| <= 1
    requires forall k :: 0 <= k < |l| && (k < i || k >= j) ==> m'[l[k].addr] == m[l[k].addr]
    requires forall k :: 0 <= k < |l| && (k < i - 1 || k >= j) ==> LinkOf(m', l[k].addr) == LinkOf(m, l[k].addr)
    requires var first := if mid == [] then AddrAt(l, j) else mid[0].addr;
      if i == 0 then root' == first else root' == root && LinkOf(m', l[i - 1].addr) == first
    requires mid != [] ==> Keeps(m', mid[0], AddrAt(l, j))
    ensures Rep(m', root', l[..i] + mid + l[j..])
  {
    hide Rep, AddrAt;
    var l' := l[..i] + mid + l[j..];
    var n := |mid|;
    RepRoot(m, root, l);
    forall k | 0 <= k < |l'| ensures Keeps(m', l'[k], AddrAt(l', k + 1)) {
      SplicedAt(l, i, j, mid, k);
      SplicedAt(l, i, j, mid, k + 1);
      if k < i {
        RepCells(m, root, l, k);
      } else if k >= i + n {
        RepCells(m, root, l, j + (k - i - n));
      }
    }
    SplicedAt(l, i, j, mid, 0);
    RepOf(m', root', l');
  }

  /** Where the nodes of a spliced list come from. */
  lemma SplicedAt(l: seq<Node>, i: nat, j: nat, mid: seq<Node>, k: nat)
    requires i <= j <= |l|
    ensures var l' := l[..i] + mid + l[j..];
      && (k < i ==> l'[k] == l[k] && AddrAt(l', k) == AddrAt(l, k))
      && (i <= k < i + |mid| ==> l'[k] == mid[k - i] && AddrAt(l', k) == mid[k - i].addr)
      && (i + |mid| <= k ==> AddrAt(l', k) == AddrAt(l, j + (k - i - |mid|)))
      && (i + |mid| <= k < |l'| ==> l'[k] == l[j + (k - i - |mid|)])
  {
  }

  lemma RepOf(m: seq<nat>, root: nat, l: seq<Node>)
    requires root == AddrAt(l, 0)
    requires forall k {:trigger l[k]} :: 0 <= k < |l| ==> Keeps(m, l[k], AddrAt(l, k + 1))
    ensures Rep(m, root, l)
  {
    forall k | 0 <= k < |l|
      ensures l[k].addr + 1 < |m| && m[l[k].addr] == l[k].size && LinkOf(m, l[k].addr) == AddrAt(l, k + 1)
    {
      assert Keeps(m, l[k], AddrAt(l, k + 1));
    }
  }

  function PrevAt(l: seq<Node>, i: nat): nat
    requires i <= |l|
  {
    if i == 0 then 0 else l[i - 1].addr
  }

  /** Memory after `*npp = value`, where npp is the link that leads to node i of l. */
  function Relinked(m: seq<nat>, prev: nat, value: nat): (r: seq<nat>)
    requires prev != 0 ==> prev + 1 < |m|
    ensures |r| == |m|
  {
    if prev == 0 then m else m[prev + 1 := value]
  }

  ghost predicate SameOutside(m: seq<nat>, m': seq<nat>, l: seq<Node>) {
    |m'| == |m| && forall w :: 0 <= w < |m| && !Covers(l, w) ==> m'[w] == m[w]
  }

  lemma CellsCovered(l: seq<Node>, top: nat, i: nat)
    requires WF(l, top) && i < |l|
    ensures Covers(l, l[i].addr) && Covers(l, l[i].addr + 1) && NodeOk(l[i], top)
  {
    assert l[i].Has(l[i].addr) && l[i].Has(l[i].addr + 1);
  }

  lemma RepCells(m: seq<nat>, root: nat, l: seq<Node>, i: nat)
    requires Rep(m, root, l) && i < |l|
    ensures Keeps(m, l[i], AddrAt(l, i + 1))
  {
  }

  lemma Gap(l: seq<Node>, top: nat, i: nat, j: nat)
    requires WF(l, top) && i < j < |l|
    ensures l[i].End() < l[j].addr
  {
  }

  lemma OnlyOutside(m: seq<nat>, m': seq<nat>, l: seq<Node>)
    requires SameOutside(m, m', l)
    ensures |m'| == |m| && forall w :: 0 <= w < |m| && !Covers(l, w) ==> m'[w] == m[w]
  {
  }

  lemma CellsOnly(m: seq<nat>, m': seq<nat>, l: seq<Node>, i: nat)
    requires i < |l| && |m'| == |m| && Covers(l, l[i].addr) && Covers(l, l[i].addr + 1)
    requires forall w :: 0 <= w < |m| && w != l[i].addr && w != l[i].addr + 1 ==> m'[w] == m[w]
    ensures SameOutside(m, m', l)
  {
  }

  /** Changes inside node k, and to the link that leads to it, stay within the words of the list. */
  lemma ChangesInside(m: seq<nat>, m1: seq<nat>, l: seq<Node>, top: nat, k: nat, v: nat)
    requires WF(l, top) && top <= |m| == |m1| && k <= |l|
    requires forall w :: 0 <= w < |m| && !(k < |l| && l[k].Has(w)) ==> m1[w] == m[w]
    ensures PrevAt(l, k) != 0 ==> PrevAt(l, k) + 1 < |m|
    ensures SameOutside(m, Relinked(m1, PrevAt(l, k), v), l)
    ensures k < |l| ==> forall w: nat :: l[k].Has(w) ==> Relinked(m1, PrevAt(l, k), v)[w] == m1[w]
  {
    if k > 0 { CellsCovered(l, top, k - 1); }
    var m' := Relinked(m1, PrevAt(l, k), v);
    forall w | 0 <= w < |m| && !Covers(l, w) ensures m'[w] == m[w] {
    }
    if 0 < k < |l| { assert l[k - 1].End() < l[k].addr; }
  }

  /** The cells of the other nodes are not touched by such changes. */
  lemma CellsKept(m: seq<nat>, m1: seq<nat>, l: seq<Node>, top: nat, k: nat, v: nat, i: nat)
    requires WF(l, top) && top <= |m| == |m1| && k < |l| && i < |l| && i != k
    requires forall w :: 0 <= w < |m| && !l[k].Has(w) ==> m1[w] == m[w]
    requires PrevAt(l, k) != 0 ==> PrevAt(l, k) + 1 < |m|
    ensures l[i].addr + 1 < |m|
    ensures var m' := Relinked(m1, PrevAt(l, k), v);
      && m'[l[i].addr] == m[l[i].addr]
      && (i != k - 1 ==> LinkOf(m', l[i].addr) == LinkOf(m, l[i].addr))
  {
    assert if i < k then l[i].End() < l[k].addr else l[k].End() < l[i].addr;
    if k > 0 && i != k - 1 { assert if i < k - 1 then l[i].End() < l[k - 1].addr else l[k - 1].End() < l[i].addr; }
    assert l[i].size >= NODE_WORDS && l[k].size >= NODE_WORDS;
    if k > 0 { assert l[k - 1].size >= NODE_WORDS && l[k - 1].addr >= 1; }
  }

  lemma UnlinkRep(m: seq<nat>, root: nat, l: seq<Node>, k: nat)
    requires WF(l, |m|) && Rep(m, root, l) && k < |l|
    requires PrevAt(l, k) != 0 ==> PrevAt(l, k) + 1 < |m|
    ensures var next := AddrAt(l, k + 1);
      Rep(Relinked(m, PrevAt(l, k), next), if k == 0 then next else root, l[..k] + l[k + 1..])
  {
    hide Rep, WF;
    var m' := Relinked(m, PrevAt(l, k), AddrAt(l, k + 1));
    if k > 0 { CellsCovered(l, |m|, k - 1); }
    forall i | 0 <= i < |l| && i != k
      ensures l[i].addr + 1 < |m|
      ensures m'[l[i].addr] == m[l[i].addr] && (i != k - 1 ==> LinkOf(m', l[i].addr) == LinkOf(m, l[i].addr))
    {
      CellsKept(m, m, l, |m|, k, AddrAt(l, k + 1), i);
    }
    SpliceRep(m, root, l, m', if k == 0 then AddrAt(l, k + 1) else root, k, k + 1, []);
    assert l[..k] + [] + l[k + 1..] == l[..k] + l[k + 1..];
  }

  /** Node k gives way to a node within it whose cells have been written. */
  lemma ReplaceRep(m: seq<nat>, root: nat, l: seq<Node>, k: nat, n: Node, m1: seq<nat>)
    requires WF(l, |m|) && Rep(m, root, l) && k < |l|
    requires l[k].addr <= n.addr && n.addr + NODE_WORDS <= l[k].End()
    requires |m1| == |m| && m1[n.addr] == n.size && m1[n.addr + 1] == AddrAt(l, k + 1)
    requires forall w :: 0 <= w < |m| && !l[k].Has(w) ==> m1[w] == m[w]
    requires PrevAt(l, k) != 0 ==> PrevAt(l, k) + 1 < |m|
    ensures Rep(Relinked(m1, PrevAt(l, k), n.addr), if k == 0 then n.addr else root, l[k := n])
  {
    hide Rep, WF, SameOutside;
    var m' := Relinked(m1, PrevAt(l, k), n.addr);
    CellsCovered(l, |m|, k);
    if k > 0 { CellsCovered(l, |m|, k - 1); }
    ChangesInside(m, m1, l, |m|, k, n.addr);
    assert l[k].Has(n.addr) && l[k].Has(n.addr + 1);
    forall i | 0 <= i < |l| && i != k
      ensures l[i].addr + 1 < |m|
      ensures m'[l[i].addr] == m[l[i].addr] && (i != k - 1 ==> LinkOf(m', l[i].addr) == LinkOf(m, l[i].addr))
    {
      CellsKept(m, m1, l, |m|, k, n.addr, i);
    }
    SpliceRep(m, root, l, m', if k == 0 then n.addr else root, k, k + 1, [n]);
    assert l[..k] + [n] + l[k + 1..] == l[k := n];
  }

  /** Writes outside the list's words do not disturb it. */
  lemma RepFrame(m: seq<nat>, m': seq<nat>, root: nat, l: seq<Node>)
    requires WF(l, |m|) && Rep(m, root, l) && |m'| == |m|
    requires forall w :: 0 <= w < |m| && Covers(l, w) ==> m'[w] == m[w]
    ensures Rep(m', root, l)
  {
    forall i | 0 <= i < |l| ensures Keeps(m', l[i], AddrAt(l, i + 1)) {
      CellsCovered(l, |m|, i);
      RepCells(m, root, l, i);
    }
  }

  /** The words of a block read the same in both memories. */
  ghost predicate BlockKept(m: seq<nat>, m': seq<nat>, n: Node) {
    forall w: nat :: n.Has(w) && w < |m| && w < |m'| ==> m'[w] == m[w]
  }

  /** The first n words of the user area `to` hold what the user area `from` held. */
  ghost predicate UserKept(m: seq<nat>, from: nat, m': seq<nat>, to: nat, n: int) {
    && from + n <= |m| && to + n <= |m'|
    && forall w :: to <= w < to + n ==> m'[w] == m[w - to + from]
  }

  /** What reallocating block a to `need` words gives: the heap and result of the step, the first words
      of the user area as they were, and every other live block untouched. */
  ghost predicate Reallocated(h: Heap, m: seq<nat>, a: nat, need: nat, h': Heap, m': seq<nat>, result: nat)
    requires a in h.live
  {
    && (h', if result == 0 then None else Some(result - 1)) == ReallocStep(h, a, need)
    && (result != 0 ==> UserKept(m, a + 1, m', result, Min(h.live[a], need) - 1))
    && (forall c :: c in h.live && c != a ==> BlockKept(m, m', Node(c, h.live[c])))
  }

  function Min(x: nat, y: nat): nat {
    if x < y then x else y
  }

  // Release.

  lemma {:induction false} PositionUnique(l: seq<Node>, top: nat, a: nat, p: nat)
    requires IsPosition(l, a, p)
    ensures Position(l, a) == p
  {
    if p > 0 {
      assert l[0].addr < a;
      forall i | 0 <= i < |l[1..]| ensures l[1..][i] == l[i + 1] {
      }
      PositionUnique(l[1..], top, a, p - 1);
    }
  }

  /** What the stopping point of the walk says about the block's address. */
  lemma WhereItLies(l: seq<Node>, top: nat, a: nat, i: nat)
    requires WF(l, top) && i <= |l|
    requires forall j :: 0 <= j < i ==> l[j].End() < a
    requires i < |l| ==> a <= l[i].End()
    ensures i < |l| && l[i].End() == a ==> Position(l, a) == i + 1 && !Covers(l, a)
    ensures i < |l| && l[i].addr <= a < l[i].End() ==> Covers(l, a)
    ensures i == |l| || a < l[i].addr ==> Position(l, a) == i && !Covers(l, a)
  {
    if i < |l| && l[i].End() == a {
      forall j | 0 <= j < |l| ensures (j <= i ==> l[j].addr < a) && (j > i ==> a < l[j].addr) {
      }
      PositionUnique(l, top, a, i + 1);
      assert forall j :: 0 <= j < |l| ==> !l[j].Has(a);
    }
    if i < |l| && l[i].addr <= a < l[i].End() { assert l[i].Has(a); }
    if i == |l| || a < l[i].addr {
      forall j | 0 <= j < |l| ensures (j < i ==> l[j].addr < a) && (j >= i ==> a < l[j].addr) {
        assert j > i ==> l[i].End() < l[j].addr;
      }
      PositionUnique(l, top, a, i);
      assert forall j :: 0 <= j < |l| ==> !l[j].Has(a);
    }
  }

  /** Inserting behind node i that ends where b begins. */
  lemma InsertBehind(l: seq<Node>, b: Node, i: nat)
    requires i < |l| && l[i].End() == b.addr
    ensures var n := Node(l[i].addr, l[i].size + b.size);
      Insert(l, b, i + 1) ==
      if i + 1 < |l| && n.End() == l[i + 1].addr
      then l[..i] + [Node(n.addr, n.size + l[i + 1].size)] + l[i + 2..]
      else l[..i] + [n] + l[i + 1..]
  {
    assert l[..i + 1][..i] == l[..i];
    if i + 1 < |l| { assert l[i + 1..][1..] == l[i + 2..]; }
  }

  /** Inserting before node i when the node before that does not reach b. */
  lemma InsertBefore(l: seq<Node>, b: Node, i: nat)
    requires i <= |l| && (i > 0 ==> l[i - 1].End() != b.addr)
    ensures Insert(l, b, i) ==
      if i < |l| && b.End() == l[i].addr
      then l[..i] + [Node(b.addr, b.size + l[i].size)] + l[i + 1..]
      else l[..i] + [b] + l[i..]
  {
    if i < |l| { assert l[i..][1..] == l[i + 1..]; }
  }

  /** Node i absorbs what lies between it and node j. */
  lemma AbsorbRep(m: seq<nat>, root: nat, l: seq<Node>, i: nat, j: nat, n: Node, m': seq<nat>)
    requires WF(l, |m|) && Rep(m, root, l) && i < j <= |l| && n.addr == l[i].addr && |m'| == |m|
    requires Keeps(m', n, AddrAt(l, j))
    requires forall w :: 0 <= w < |m| && w != n.addr && w != n.addr + 1 ==> m'[w] == m[w]
    ensures Rep(m', root, l[..i] + [n] + l[j..])
  {
    hide Rep;
    CellsCovered(l, |m|, i);
    forall k | 0 <= k < |l| && k != i
      ensures l[k].addr + 1 < |m| && m'[l[k].addr] == m[l[k].addr] && LinkOf(m', l[k].addr) == LinkOf(m, l[k].addr)
    {
      CellsCovered(l, |m|, k);
      assert if k < i then l[k].End() < l[i].addr else l[i].End() < l[k].addr;
    }
    hide WF;
    if i > 0 { RepCells(m, root, l, i - 1); }
    RepRoot(m, root, l);
    SpliceRep(m, root, l, m', root, i, j, [n]);
  }

  lemma AddrIs(l: seq<Node>, i: nat)
    ensures AddrAt(l, i) == if i < |l| then l[i].addr else 0
  {
  }

  lemma RepRoot(m: seq<nat>, root: nat, l: seq<Node>)
    requires Rep(m, root, l)
    ensures root == AddrAt(l, 0)
  {
  }

  /** A node apart from the list is linked in at position i, with what follows from j on behind it. */
  lemma LinkInRep(m: seq<nat>, root: nat, l: seq<Node>, i: nat, j: nat, n: Node, m': seq<nat>)
    requires WF(l, |m|) && Rep(m, root, l) && i <= j <= |l| && |m'| == |m|
    requires n.addr + 1 < |m| && !Covers(l, n.addr) && !Covers(l, n.addr + 1)
    requires Keeps(m', n, AddrAt(l, j))
    requires i > 0 ==> l[i - 1].addr + 1 < |m| && LinkOf(m', l[i - 1].addr) == n.addr
    requires forall w :: 0 <= w < |m| && w != n.addr && w != n.addr + 1 && !(i > 0 && w == l[i - 1].addr + 1) ==>
      m'[w] == m[w]
    ensures Rep(m', if i == 0 then n.addr else root, l[..i] + [n] + l[j..])
  {
    hide Rep, WF, Covers, AddrAt;
    forall k | 0 <= k < |l|
      ensures l[k].addr + 1 < |m| && m'[l[k].addr] == m[l[k].addr]
      ensures k != i - 1 ==> LinkOf(m', l[k].addr) == LinkOf(m, l[k].addr)
    {
      CellsCovered(l, |m|, k);
      if i > 0 && k != i - 1 {
        CellsCovered(l, |m|, i - 1);
        if k < i - 1 { Gap(l, |m|, k, i - 1); } else { Gap(l, |m|, i - 1, k); }
      }
    }
    AddrIs(l, j);
    SpliceRep(m, root, l, m', if i == 0 then n.addr else root, i, j, [n]);
  }

  ghost predicate JoinsBehind(l: seq<Node>, b: Node, i: nat)
    requires i < |l|
  {
    i + 1 < |l| && b.End() == l[i + 1].addr
  }

  /** Node i, rewritten to span b and the next node if adjacent, represents the list with b inserted. */
  lemma BehindRep(m: seq<nat>, root: nat, l: seq<Node>, i: nat, b: Node, m': seq<nat>)
    requires WF(l, |m|) && Rep(m, root, l) && i < |l| && l[i].End() == b.addr && |m'| == |m|
    requires if JoinsBehind(l, b, i)
      then Keeps(m', Node(l[i].addr, l[i].size + b.size + l[i + 1].size), AddrAt(l, i + 2))
      else Keeps(m', Node(l[i].addr, l[i].size + b.size), AddrAt(l, i + 1))
    requires forall w :: 0 <= w < |m| && w != l[i].addr && w != l[i].addr + 1 ==> m'[w] == m[w]
    ensures Rep(m', root, Insert(l, b, i + 1))
    ensures SameOutside(m, m', l)
  {
    hide Rep, WF, Keeps, Insert, SameOutside, Covers;
    InsertBehind(l, b, i);
    if JoinsBehind(l, b, i) {
      AbsorbRep(m, root, l, i, i + 2, Node(l[i].addr, l[i].size + b.size + l[i + 1].size), m');
    } else {
      AbsorbRep(m, root, l, i, i + 1, Node(l[i].addr, l[i].size + b.size), m');
    }
    CellsCovered(l, |m|, i);
    CellsOnly(m, m', l, i);
  }

  /** b, written out and linked in before node i, joined to it if adjacent. */
  lemma BeforeRep(m: seq<nat>, root: nat, l: seq<Node>, i: nat, b: Node, m': seq<nat>)
    requires WF(l, |m|) && Rep(m, root, l) && i <= |l| && |m'| == |m| && NodeOk(b, |m|) && Apart(l, b)
    requires i > 0 ==> l[i - 1].End() != b.addr && l[i - 1].addr + 1 < |m| && LinkOf(m', l[i - 1].addr) == b.addr
    requires if i < |l| && b.End() == l[i].addr
      then Keeps(m', Node(b.addr, b.size + l[i].size), AddrAt(l, i + 1))
      else Keeps(m', b, AddrAt(l, i))
    requires forall w :: 0 <= w < |m| && w != b.addr && w != b.addr + 1 && !(i > 0 && w == l[i - 1].addr + 1) ==>
      m'[w] == m[w]
    ensures Rep(m', if i == 0 then b.addr else root, Insert(l, b, i))
    ensures forall w :: 0 <= w < |m| && !Covers(l, w) && !b.Has(w) ==> m'[w] == m[w]
  {
    hide Rep, WF, Keeps, Insert, Apart, Covers;
    InsertBefore(l, b, i);
    ApartNotCovered(l, b, b.addr);
    ApartNotCovered(l, b, b.addr + 1);
    if i < |l| && b.End() == l[i].addr {
      LinkInRep(m, root, l, i, i + 1, Node(b.addr, b.size + l[i].size), m');
    } else {
      LinkInRep(m, root, l, i, i, b, m');
    }
    if i > 0 { CellsCovered(l, |m|, i - 1); }
  }

  /** Node k is the lowest among the smallest fitting nodes before i. */
  ghost predicate BestSoFar(l: seq<Node>, need: nat, k: nat, i: nat) {
    && k < i <= |l|
    && l[k].size >= need
    && (forall j :: 0 <= j < i && l[j].size >= need ==> l[k].size <= l[j].size)
    && (forall j :: 0 <= j < k && l[j].size >= need ==> l[k].size < l[j].size)
  }

  ghost predicate NoneFits(l: seq<Node>, need: nat, i: nat) {
    forall j :: 0 <= j < i && j < |l| ==> l[j].size < need
  }

  lemma NothingYet(l: seq<Node>, need: nat)
    ensures NoneFits(l, need, 0)
  {
  }

  /** What looking at node i does to the search. */
  lemma NextNode(l: seq<Node>, need: nat, k: nat, i: nat)
    requires i < |l|
    ensures l[i].size < need && NoneFits(l, need, i) ==> NoneFits(l, need, i + 1)
    ensures l[i].size >= need && NoneFits(l, need, i) ==> BestSoFar(l, need, i, i + 1)
    ensures k < i && BestSoFar(l, need, k, i) && (l[i].size < need || l[k].size <= l[i].size) ==>
      BestSoFar(l, need, k, i + 1)
    ensures k < i && BestSoFar(l, need, k, i) && need <= l[i].size < l[k].size ==> BestSoFar(l, need, i, i + 1)
  {
  }

  lemma ExactFit(l: seq<Node>, need: nat, k: nat)
    requires k < |l| && BestSoFar(l, need, k, k + 1) && l[k].size == need
    ensures IsBestFit(l, need, k)
  {
  }

  lemma BestOfAll(l: seq<Node>, need: nat, k: nat)
    requires BestSoFar(l, need, k, |l|)
    ensures IsBestFit(l, need, k)
  {
  }

  class NutHeap {
    const mem: array<nat>
    var root: nat
    ghost var h: Heap

    ghost predicate Valid()
      reads this, mem
    {
      && h.top == mem.Length
      && Inv(h)
      && Rep(mem[..], root, h.free)
      && (forall a :: a in h.live ==> a < mem.Length && mem[a] == h.live[a])
    }

    constructor (words: nat)
      ensures Valid() && h == Empty(words) && fresh(mem) && mem.Length == words
    {
      mem := new nat[words];
      root := 0;
      h := Empty(words);
      new;
      RunsKeep(words, []);
    }

    /** `*npp = value`, where npp is the root or the link of the node at `prev`. */
    method SetLink(prev: nat, value: nat)
      requires prev != 0 ==> prev + 1 < mem.Length
      modifies this`root, mem
      ensures root == if prev == 0 then value else old(root)
      ensures mem[..] == Relinked(old(mem[..]), prev, value)
      ensures prev != 0 ==> mem[prev + 1] == value
      ensures forall w :: 0 <= w < mem.Length && w != prev + 1 ==> mem[w] == old(mem[w])
      ensures prev == 0 ==> forall w :: 0 <= w < mem.Length ==> mem[w] == old(mem[w])
    {
      if prev == 0 { root := value; } else { mem[prev + 1] := value; }
    }

    /** The best-fit search; 0 when nothing fits. */
    method FindFit(need: nat, ghost l: seq<Node>) returns (fit: nat, fitPrev: nat, ghost k: nat)
      requires WF(l, mem.Length) && Rep(mem[..], root, l)
      ensures fit == 0 ==> NoneFits(l, need, |l|)
      ensures fit != 0 ==> IsBestFit(l, need, k) && fit == l[k].addr && fitPrev == PrevAt(l, k)
    {
      ghost var m := mem[..];
      assert forall j :: 0 <= j < |l| ==> l[j].addr >= 1;
      hide WF, BestSoFar, NoneFits, IsBestFit;
      var node, prev := root, 0;
      fit, fitPrev, k := 0, 0, 0;
      ghost var i: nat := 0;
      NothingYet(l, need);
      while node != 0
        invariant i <= |l| && node == AddrAt(l, i) && prev == PrevAt(l, i)
        invariant fit == 0 ==> NoneFits(l, need, i)
        invariant fit != 0 ==> k < i && fit == l[k].addr && fitPrev == PrevAt(l, k) && BestSoFar(l, need, k, i)
        decreases |l| - i
      {
        assert m[l[i].addr] == l[i].size && LinkOf(m, l[i].addr) == AddrAt(l, i + 1);
        NextNode(l, need, k, i);
        if mem[node] >= need {
          assert fit != 0 ==> m[l[k].addr] == l[k].size;
          if fit == 0 || mem[fit] > mem[node] {
            fit, fitPrev, k := node, prev, i;
            if mem[node] == need {
              ExactFit(l, need, k);
              return;
            }
          }
        }
        prev := node;
        node := mem[node + 1];
        i := i + 1;
      }
      if fit != 0 { BestOfAll(l, need, k); }
    }

    /** NutHeapRootAlloc; the result is the user area, or 0.  By NeedCovers it has room for `size` bytes
        exactly when size <= 2^32 - 8. */
    method Alloc(size: nat) returns (block: nat)
      requires Valid() && Askable(size)
      modifies this, mem
      ensures Valid() && h == AllocStep(old(h), Need(size)).0
      ensures var r := AllocStep(old(h), Need(size)).1; block == if r.None? then 0 else r.value.addr + 1
      ensures forall a :: a in old(h.live) ==> BlockKept(old(mem[..]), mem[..], Node(a, old(h.live[a])))
      ensures block == 0 ==> root == old(root) && mem[..] == old(mem[..])
    {
      hide WF, Rep, Covers, LiveOk, Accounted, BlockKept, BestFit, SameOutside;
      ghost var m := mem[..];
      var need := Need(size);
      AllocKeeps(h, need);
      ghost var l := h.free;
      var fit, prev;
      ghost var k;
      fit, prev, k := FindFit(need, l);
      if fit == 0 {
        NoFit(h, need);
        Unmoved(h, m);
        return 0;
      }
      AllocIs(h, need, k);
      Carve(fit, prev, need, l, k);
      OutsideUntouched(h, m, mem[..]);
      LiveSizes(h);
      HeadersKept(h.live, m, mem[..], h.live);
      h := AllocStep(h, need).0;
      LiveSizes(h);
      block := fit + 1;
    }

    /** Split the node, or unlink it when the rest is too small. */
    method Carve(fit: nat, prev: nat, need: nat, ghost l: seq<Node>, ghost k: nat)
      requires WF(l, mem.Length) && Rep(mem[..], root, l)
      requires k < |l| && fit == l[k].addr && NODE_WORDS <= need <= l[k].size && prev == PrevAt(l, k)
      modifies this`root, mem
      ensures Rep(mem[..], root, TakeFrom(l, k, need).0) && mem[fit] == TakeFrom(l, k, need).1.size
      ensures SameOutside(old(mem[..]), mem[..], l)
    {
      hide WF, Rep, Covers, SameOutside;
      ghost var m, r := mem[..], root;
      CellsCovered(l, mem.Length, k);
      RepCells(m, r, l, k);
      if k > 0 { CellsCovered(l, mem.Length, k - 1); }
      assert l[k].Has(fit);
      if mem[fit] - need >= NODE_WORDS {
        var node := fit + need;
        mem[node] := mem[fit] - need;
        mem[node + 1] := mem[fit + 1];
        mem[fit] := need;
        ghost var m1 := mem[..];
        ChangesInside(m, m1, l, mem.Length, k, node);
        ReplaceRep(m, r, l, k, Node(node, l[k].size - need), m1);
        SetLink(prev, node);
      } else {
        Unlink(fit, prev, l, k);
      }
    }

    /** The walk of NutHeapRootFree: stops at the first node that does not end before fnode. */
    method Seek(fnode: nat, ghost l: seq<Node>) returns (node: nat, prev: nat, ghost i: nat)
      requires WF(l, mem.Length) && Rep(mem[..], root, l) && fnode != 0
      ensures i <= |l| && node == AddrAt(l, i) && prev == PrevAt(l, i)
      ensures forall j :: 0 <= j < i ==> l[j].End() < fnode
      ensures i < |l| ==> node != 0 && fnode <= l[i].End()
      ensures i == |l| ==> node == 0
    {
      ghost var m := mem[..];
      assert forall j :: 0 <= j < |l| ==> l[j].addr >= 1;
      hide WF;
      node, prev, i := root, 0, 0;
      while node != 0
        invariant i <= |l| && node == AddrAt(l, i) && prev == PrevAt(l, i)
        invariant forall j :: 0 <= j < i ==> l[j].End() < fnode
        decreases |l| - i
      {
        RepCells(m, root, l, i);
        if node + mem[node] == fnode || node > fnode || node + mem[node] > fnode { return; }
        prev := node;
        node := mem[node + 1];
        i := i + 1;
      }
    }

    /** Joins fnode to the node in front of it, and to the one behind it when that is adjacent too. */
    method FreeBehind(node: nat, fnode: nat, ghost l: seq<Node>, ghost i: nat)
      requires WF(l, mem.Length) && Rep(mem[..], root, l) && i < |l| && node == l[i].addr && l[i].End() == fnode
      requires fnode < mem.Length && NodeOk(Node(fnode, mem[fnode]), mem.Length) && Apart(l, Node(fnode, mem[fnode]))
      modifies mem
      ensures Rep(mem[..], root, Insert(l, Node(fnode, old(mem[fnode])), i + 1))
      ensures SameOutside(old(mem[..]), mem[..], l)
    {
      hide WF, Rep, Apart, Insert, Covers, SameOutside, AddrAt;
      ghost var m := mem[..];
      ghost var b := Node(fnode, mem[fnode]);
      CellsCovered(l, mem.Length, i);
      AddrIs(l, i + 1);
      if i + 1 < |l| {
        CellsCovered(l, mem.Length, i + 1);
        RepCells(m, root, l, i + 1);
        Gap(l, mem.Length, i, i + 1);
      }
      RepCells(m, root, l, i);
      mem[node] := mem[node] + mem[fnode];
      if node + mem[node] == mem[node + 1] {
        var next := mem[node + 1];
        mem[node] := mem[node] + mem[next];
        mem[node + 1] := mem[next + 1];
      }
      BehindRep(m, root, l, i, b, mem[..]);
    }

    /** Links fnode in before `node` (0: at the end), joined to it when adjacent. */
    method FreeBefore(node: nat, prev: nat, fnode: nat, ghost l: seq<Node>, ghost i: nat)
      requires WF(l, mem.Length) && Rep(mem[..], root, l) && i <= |l| && node == AddrAt(l, i) && prev == PrevAt(l, i)
      requires forall j :: 0 <= j < i ==> l[j].End() < fnode
      requires i < |l| ==> fnode < l[i].addr
      requires fnode < mem.Length && NodeOk(Node(fnode, mem[fnode]), mem.Length) && Apart(l, Node(fnode, mem[fnode]))
      modifies this`root, mem
      ensures Rep(mem[..], root, Insert(l, Node(fnode, old(mem[fnode])), i))
      ensures forall w :: 0 <= w < mem.Length && !Covers(l, w) && !Node(fnode, old(mem[fnode])).Has(w) ==>
        mem[w] == old(mem[w])
    {
      hide WF, Rep, Apart, Insert, Covers, AddrAt, Relinked;
      ghost var m, r := mem[..], root;
      ghost var b := Node(fnode, mem[fnode]);
      AddrIs(l, i);
      if i > 0 { CellsCovered(l, mem.Length, i - 1); }
      if i < |l| { CellsCovered(l, mem.Length, i); RepCells(m, r, l, i); }
      SetLink(prev, fnode);
      if node != 0 && fnode + mem[fnode] == node {
        mem[fnode] := mem[fnode] + mem[node];
        mem[fnode + 1] := mem[node + 1];
      } else {
        mem[fnode + 1] := node;
      }
      BeforeRep(m, r, l, i, b, mem[..]);
    }

    /** NutHeapRootFree.  `l` is the free list; a block that is not NULL either has its header inside a
        free node or is a node apart from all of them. */
    method RootFree(block: nat, ghost l: seq<Node>) returns (rc: int)
      requires WF(l, mem.Length) && Rep(mem[..], root, l)
      requires block != 0 ==> 2 <= block <= mem.Length
      requires block != 0 ==>
        var b := Node(block - 1, mem[block - 1]);
        Covers(l, b.addr) || (NodeOk(b, mem.Length) && Apart(l, b))
      modifies this`root, mem
      ensures block == 0 ==> rc == -3
      ensures block != 0 && Covers(l, block - 1) ==> rc == -1
      ensures rc != 0 ==> root == old(root) && mem[..] == old(mem[..])
      ensures block != 0 && !Covers(l, block - 1) ==> rc == 0
      ensures rc == 0 ==> block != 0
      ensures rc == 0 ==>
        var b := Node(block - 1, old(mem[block - 1]));
        Rep(mem[..], root, Insert(l, b, Position(l, b.addr)))
      ensures block != 0 ==>
        forall w :: 0 <= w < mem.Length && !Covers(l, w) && !Node(block - 1, old(mem[block - 1])).Has(w) ==>
          mem[w] == old(mem[w])
    {
      hide WF, Rep, Covers, Insert, Position, Apart, SameOutside;
      if block == 0 { return -3; }
      var fnode := block - 1;
      var node, prev;
      ghost var i;
      node, prev, i := Seek(fnode, l);
      ghost var m := mem[..];
      if node != 0 { RepCells(m, root, l, i); }
      WhereItLies(l, mem.Length, fnode, i);
      if node != 0 && node + mem[node] == fnode {
        FreeBehind(node, fnode, l, i);
        OnlyOutside(m, mem[..], l);
        return 0;
      }
      if node != 0 && node <= fnode { return -1; }
      FreeBefore(node, prev, fnode, l, i);
      rc := 0;
    }

    /** Freeing a live block releases it; NULL, or a block that already lies in free memory, is refused
        and changes nothing. */
    method Free(block: nat) returns (rc: int)
      requires Valid()
      requires block != 0 ==> block - 1 in h.live || Covers(h.free, block - 1)
      modifies this, mem
      ensures Valid()
      ensures rc == if block == 0 then -3 else if Covers(old(h.free), block - 1) then -1 else 0
      ensures rc != 0 ==> h == old(h) && root == old(root) && mem[..] == old(mem[..])
      ensures rc == 0 ==> block != 0 && block - 1 in old(h.live) && h == FreeStep(old(h), block - 1)
      ensures forall a :: a in h.live ==> BlockKept(old(mem[..]), mem[..], Node(a, h.live[a]))
    {
      hide WF, Rep, Covers, LiveOk, Accounted, BlockKept;
      ghost var m := mem[..];
      if block != 0 { FreeablePlace(h, m, block - 1); }
      rc := RootFree(block, h.free);
      if rc == 0 {
        ghost var a := block - 1;
        FreeKeeps(h, a);
        LiveUntouched(h, m, mem[..], Block(h, a));
        ghost var h' := FreeStep(h, a);
        LiveSizes(h);
        HeadersKept(h.live, m, mem[..], h'.live);
        h := h';
      } else {
        Unmoved(h, m);
      }
    }

    /** NutHeapRootAdd: the region is given in bytes and trimmed to whole words. */
    method Add(addr: nat, size: nat)
      requires Valid()
      requires 4 * ((addr + 3) / 4) - addr <= size
      requires var b := Region(addr, size); NodeOk(b, mem.Length) && forall w: nat :: b.Has(w) ==> w !in h.added
      modifies this, mem
      ensures Valid() && h == AddStep(old(h), Region(addr, size))
      ensures forall a :: a in h.live ==> BlockKept(old(mem[..]), mem[..], Node(a, h.live[a]))
    {
      hide WF, Rep, Covers, LiveOk, Accounted, BlockKept, Insert;
      ghost var b := Region(addr, size);
      var node := (addr + 3) / 4;
      ghost var m := mem[..];
      AddPlace(h, b);
      AddKeeps(h, b);
      mem[node] := (size - (4 * node - addr)) / 4;
      ghost var m1 := mem[..];
      RepFrameAt(m, m1, root, h.free, node);
      var rc := RootFree(node + 1, h.free);
      AddUntouched(h, m, mem[..], b);
      LiveSizes(h);
      HeadersKept(h.live, m, mem[..], h.live);
      h := AddStep(h, b);
    }

    /** The walk of NutHeapRootRealloc: the first free node at or after fnode. */
    method SeekFrom(fnode: nat, ghost l: seq<Node>) returns (node: nat, prev: nat, ghost i: nat)
      requires WF(l, mem.Length) && Rep(mem[..], root, l)
      ensures i == Position(l, fnode) && node == AddrAt(l, i) && prev == PrevAt(l, i)
      ensures node == 0 <==> i == |l|
    {
      ghost var m := mem[..];
      assert forall j :: 0 <= j < |l| ==> l[j].addr >= 1;
      node, prev, i := root, 0, 0;
      while node != 0 && node < fnode
        invariant i <= |l| && node == AddrAt(l, i) && prev == PrevAt(l, i)
        invariant forall j :: 0 <= j < i ==> l[j].addr < fnode
        decreases |l| - i
      {
        RepCells(m, root, l, i);
        prev := node;
        node := mem[node + 1];
        i := i + 1;
      }
      forall j | i <= j < |l| ensures fnode <= l[j].addr { if i < j { Gap(l, mem.Length, i, j); } }
      PositionUnique(l, mem.Length, fnode, i);
    }

    /** Moves the start of free node k up by `miss` words; when that is one word, the new size field
        lies where the old link was, so the link is copied first. */
    method MoveUp(node: nat, prev: nat, miss: nat, ghost l: seq<Node>, ghost k: nat)
      requires WF(l, mem.Length) && Rep(mem[..], root, l) && k < |l| && node == l[k].addr && prev == PrevAt(l, k)
      requires 1 <= miss && miss + NODE_WORDS <= l[k].size
      modifies this`root, mem
      ensures Rep(mem[..], root, l[k := Node(node + miss, l[k].size - miss)])
      ensures SameOutside(old(mem[..]), mem[..], l)
    {
      hide WF, Rep, Covers, SameOutside;
      ghost var m, r := mem[..], root;
      CellsCovered(l, mem.Length, k);
      RepCells(m, r, l, k);
      if k > 0 { CellsCovered(l, mem.Length, k - 1); Gap(l, mem.Length, k - 1, k); }
      ghost var m1 := m[node + miss + 1 := m[node + 1]][node + miss := l[k].size - miss];
      ChangesInside(m, m1, l, mem.Length, k, node + miss);
      ReplaceRep(m, r, l, k, Node(node + miss, l[k].size - miss), m1);
      SetLink(prev, node + miss);
      mem[node + miss + 1] := mem[node + 1];
      mem[node + miss] := mem[node] - miss;
      assert mem[..] == Relinked(m1, prev, node + miss);
    }

    /** Removes free node k from the list. */
    method Unlink(node: nat, prev: nat, ghost l: seq<Node>, ghost k: nat)
      requires WF(l, mem.Length) && Rep(mem[..], root, l) && k < |l| && node == l[k].addr && prev == PrevAt(l, k)
      modifies this`root, mem
      ensures Rep(mem[..], root, l[..k] + l[k + 1..])
      ensures SameOutside(old(mem[..]), mem[..], l)
      ensures mem[node] == old(mem[node])
    {
      hide WF, Rep, Covers, SameOutside;
      ghost var m, r := mem[..], root;
      CellsCovered(l, mem.Length, k);
      RepCells(m, r, l, k);
      if k > 0 { CellsCovered(l, mem.Length, k - 1); }
      assert l[k].Has(node);
      ChangesInside(m, m, l, mem.Length, k, AddrAt(l, k + 1));
      UnlinkRep(m, r, l, k);
      SetLink(prev, mem[node + 1]);
      assert mem[..][node] == m[node];
    }

    /** Grows the block at fnode by `miss` words into the free node k directly behind it. */
    method GrowInto(fnode: nat, node: nat, prev: nat, miss: nat, ghost l: seq<Node>, ghost k: nat)
      requires WF(l, mem.Length) && Rep(mem[..], root, l) && k < |l| && node == l[k].addr && prev == PrevAt(l, k)
      requires 1 <= miss <= l[k].size && fnode < mem.Length && !Covers(l, fnode)
      modifies this`root, mem
      ensures Rep(mem[..], root, TakeFrom(l, k, miss).0)
      ensures mem[fnode] == old(mem[fnode]) + TakeFrom(l, k, miss).1.size
      ensures forall w :: 0 <= w < mem.Length && w != fnode && !Covers(l, w) ==> mem[w] == old(mem[w])
    {
      hide WF, Rep, Covers;
      ghost var m := mem[..];
      RepCells(m, root, l, k);
      CellsCovered(l, mem.Length, k);
      if mem[node] - miss >= NODE_WORDS {
        mem[fnode] := mem[fnode] + miss;
        RepFrameAt(m, mem[..], root, l, fnode);
        MoveUp(node, prev, miss, l, k);
      } else {
        mem[fnode] := mem[fnode] + mem[node];
        RepFrameAt(m, mem[..], root, l, fnode);
        Unlink(node, prev, l, k);
      }
    }

    /** Relocation: allocate, copy the old user area, free the old block. */
    method Move(block: nat, need: nat) returns (result: nat)
      requires Valid() && block != 0 && block - 1 in h.live && h.live[block - 1] < need
      requires 4 * need < U32 && Need(4 * need) == need + OVERHEAD_WORDS
      requires !CanGrow(h, block - 1, need)
      modifies this, mem
      ensures Valid() && Reallocated(old(h), old(mem[..]), block - 1, need, h, mem[..], result)
      ensures result == 0 ==> root == old(root) && mem[..] == old(mem[..])
    {
      hide WF, Rep, Covers, LiveOk, Accounted, BlockKept, CanGrow, FreeStep, AllocStep, UserKept, ReallocStep;
      var fnode := block - 1;
      ghost var h0, m0 := h, mem[..];
      LiveSizes(h);
      AllocKeeps(h, need + OVERHEAD_WORDS);
      result := Alloc(4 * need);
      if result == 0 {
        ReallocFails(h0, fnode, need);
        Unmoved(h, m0);
        return;
      }
      ghost var m1 := mem[..];
      ReallocMoves(h0, fnode, need);
      MoveInto(block, result);
      assert |m0| == |m1| == |mem[..]| == mem.Length;
      KeptMany(h0.live, m0, m1, mem[..], fnode);
      UserFrom(m0, m1, mem[..], fnode, result, h0.live[fnode]);
    }

    /** The user area of `block` is copied to that of `dst`, and `block` is freed. */
    method MoveInto(block: nat, dst: nat)
      requires Valid() && block != 0 && dst != 0 && block != dst && block - 1 in h.live && dst - 1 in h.live
      requires h.live[block - 1] <= h.live[dst - 1]
      modifies this, mem
      ensures Valid() && h == FreeStep(old(h), block - 1)
      ensures UserKept(old(mem[..]), block, mem[..], dst, old(h.live[block - 1]) - 1)
      ensures forall c :: c in old(h.live) && c != block - 1 && c != dst - 1 ==>
        BlockKept(old(mem[..]), mem[..], Node(c, old(h.live[c])))
    {
      hide WF, Rep, Covers, LiveOk, Accounted, BlockKept, FreeStep, UserKept;
      ghost var a, b := block - 1, dst - 1;
      ghost var h1, m1 := h, mem[..];
      LiveSizes(h);
      BlocksApart(h, a, b);
      Copy(dst, block, mem[block - 1] - 1);
      ghost var m2 := mem[..];
      PayloadFrame(h1, m1, m2, root, b);
      FreshNotCovered(h1, a);
      FreeStepLive(h1, a);
      var rc := Free(block);
      assert h.live == h1.live - {a};
      assert b in h.live && h.live[b] == h1.live[b];
      UserMoved(m1, m2, mem[..], a, b, h1.live[a], h1.live[b]);
      forall c | c in h1.live && c != a && c != b ensures BlockKept(m1, mem[..], Node(c, h1.live[c])) {
        assert c in h.live && h.live[c] == h1.live[c];
        KeptTwice(m1, m2, mem[..], Node(c, h1.live[c]));
      }
    }

    /** Growth in place into free node k, the one behind the block. */
    method Grow(block: nat, node: nat, prev: nat, need: nat, ghost k: nat)
      requires Valid() && block != 0 && block - 1 in h.live && CanGrow(h, block - 1, need)
      requires k == Position(h.free, block - 1) && node == AddrAt(h.free, k) && prev == PrevAt(h.free, k)
      modifies this, mem
      ensures Valid() && Reallocated(old(h), old(mem[..]), block - 1, need, h, mem[..], block)
    {
      hide WF, Rep, Covers, LiveOk, Accounted, BlockKept, UserKept;
      var fnode := block - 1;
      ghost var m := mem[..];
      LiveSizes(h);
      FreshNotCovered(h, fnode);
      GrowKeeps(h, fnode, need);
      GrowInto(fnode, node, prev, need - mem[fnode], h.free, k);
      ResizedInPlace(h, m, mem[..], fnode);
      KeptUser(m, mem[..], fnode, h.live[fnode] - 1, need);
      h := Grown(h, fnode, need);
      LiveSizes(h);
    }

    /** Reduction: the words past `need` go back to the free list. */
    method Shrink(block: nat, need: nat)
      requires Valid() && block != 0 && block - 1 in h.live && NODE_WORDS <= need &&
        need + NODE_WORDS < h.live[block - 1]
      modifies this, mem
      ensures Valid() && Reallocated(old(h), old(mem[..]), block - 1, need, h, mem[..], block)
    {
      hide WF, Rep, Covers, LiveOk, Accounted, BlockKept, UserKept, Apart, Insert, Position;
      var fnode := block - 1;
      ghost var m := mem[..];
      ghost var tail := Node(fnode + need, h.live[fnode] - need);
      LiveSizes(h);
      TailApart(h, fnode, need);
      ShrinkKeeps(h, fnode, need);
      mem[fnode + need] := mem[fnode] - need;
      RepFrameAt(m, mem[..], root, h.free, fnode + need);
      var rc := RootFree(fnode + need + 1, h.free);
      ghost var m2 := mem[..];
      mem[fnode] := need;
      ghost var h' := Shrunk(h, fnode, need);
      FreshNotCovered(h', fnode);
      RepFrameAt(m2, mem[..], root, h'.free, fnode);
      CutInPlace(h, m, mem[..], fnode, need);
      h := h';
      LiveSizes(h);
    }

    /** NutHeapRootRealloc; a block that may have to move needs a size whose rounded block can be asked for
        again without wrapping. */
    method Realloc(block: nat, size: nat) returns (result: nat)
      requires Valid() && Askable(size) && (block != 0 ==> AskableAgain(size))
      requires block != 0 ==> block - 1 in h.live || (size == 0 && Covers(h.free, block - 1))
      modifies this, mem
      ensures Valid()
      ensures block == 0 ==>
        var (h1, r) := AllocStep(old(h), Need(size));
        && h == h1 && result == (if r.None? then 0 else r.value.addr + 1)
        && forall c :: c in old(h.live) ==> BlockKept(old(mem[..]), mem[..], Node(c, old(h.live[c])))
      ensures block != 0 && size == 0 ==>
        (if Covers(old(h.free), block - 1) then result == 0
         else
           && block - 1 in old(h.live) && result == block && h == FreeStep(old(h), block - 1)
           && forall c :: c in h.live ==> BlockKept(old(mem[..]), mem[..], Node(c, h.live[c])))
      ensures block != 0 && size != 0 ==> Reallocated(old(h), old(mem[..]), block - 1, Need(size), h, mem[..], result)
      ensures result == 0 ==> h == old(h) && root == old(root) && mem[..] == old(mem[..])
    {
      hide WF, Rep, Covers, LiveOk, Accounted, BlockKept, UserKept, Position, FreeStep;
      if block == 0 {
        AllocFailsUnchanged(h, Need(size));
        result := Alloc(size);
        return;
      }
      if size == 0 {
        var rc := Free(block);
        return if rc != 0 then 0 else block;
      }
      var need := Need(size);
      NeedBelow(size);
      LiveSizes(h);
      var fnode := block - 1;
      if need > mem[fnode] {
        var node, prev;
        ghost var k;
        node, prev, k := SeekFrom(fnode, h.free);
        if node != 0 { RepCells(mem[..], root, h.free, k); }
        if node != 0 && mem[node] >= need - mem[fnode] && fnode + mem[fnode] == node {
          Grow(block, node, prev, need, k);
          return block;
        }
        result := Move(block, need);
        return;
      }
      if need < mem[fnode] - NODE_WORDS {
        Shrink(block, need);
      } else {
        Unmoved(h, mem[..]);
        KeptUser(mem[..], mem[..], fnode, h.live[fnode] - 1, need);
      }
      result := block;
    }

    /** NutHeapRootAvailable: bytes free, less one header for each node. */
    method Available() returns (rc: nat)
      requires Valid() && mem.Length <= U32 / 4
      ensures rc == 4 * |FreeWords(h)| - 4 * |h.free| && rc < U32
    {
      hide WF, LiveOk, Accounted, Covers, Rep, Sizes, FreeWords;
      ghost var l, m := h.free, mem[..];
      NodeBounds(l, mem.Length);
      SizesAreWords(h);
      SizesStart(l);
      RepRoot(m, root, l);
      rc := 0;
      var node := root;
      ghost var i := 0;
      while node != 0
        invariant 0 <= i <= |l| && node == AddrAt(l, i) && rc == 4 * Sizes(l[..i]) - 4 * i && rc < U32
        decreases |l| - i
      {
        RepCells(m, root, l, i);
        SizesNext(l, i);
        rc := (rc + (4 * mem[node] - 4)) % U32;
        node := mem[node + 1];
        i := i + 1;
      }
      assert l[..i] == l;
    }

    /** NutHeapRootRegionAvailable: in 32-bit arithmetic, so that an empty list gives 2^32 - 4. */
    method RegionAvailable() returns (rc: nat)
      requires Valid() && mem.Length <= U32 / 4
      ensures rc == RegionBytes(h.free)
    {
      hide WF, LiveOk, Accounted, Covers, Rep, Largest;
      ghost var l, m := h.free, mem[..];
      NodeBounds(l, mem.Length);
      LargestStart(l);
      RepRoot(m, root, l);
      rc := 0;
      var node := root;
      ghost var i := 0;
      while node != 0
        invariant 0 <= i <= |l| && node == AddrAt(l, i) && rc == 4 * Largest(l[..i]) && rc <= U32
        decreases |l| - i
      {
        RepCells(m, root, l, i);
        LargestNext(l, i);
        if rc < 4 * mem[node] { rc := 4 * mem[node]; }
        node := mem[node + 1];
        i := i + 1;
      }
      assert l[..i] == l;
      rc := (rc + U32 - 4) % U32;
    }

    /** memcpy between disjoint areas. */
    method Copy(dst: nat, src: nat, n: nat)
      requires dst + n <= mem.Length && src + n <= mem.Length && (dst + n <= src || src + n <= dst)
      modifies mem
      ensures forall w :: dst <= w < dst + n ==> mem[w] == old(mem[w - dst + src])
      ensures forall w :: 0 <= w < mem.Length && !(dst <= w < dst + n) ==> mem[w] == old(mem[w])
    {
      var i := 0;
      while i < n
        invariant 0 <= i <= n
        invariant forall w :: dst <= w < dst + i ==> mem[w] == old(mem[w - dst + src])
        invariant forall w :: 0 <= w < mem.Length && !(dst <= w < dst + i) ==> mem[w] == old(mem[w])
      {
        mem[dst + i] := mem[src + i];
        i := i + 1;
      }
    }
  }

  /** The whole words inside a region of bytes. */
  function Region(addr: nat, size: nat): Node
    requires 4 * ((addr + 3) / 4) - addr <= size
  {
    Node((addr + 3) / 4, (size - (4 * ((addr + 3) / 4) - addr)) / 4)
  }

  /** The region added is made of exactly the aligned words that lie within the bytes given. */
  lemma RegionIs(addr: nat, size: nat, w: nat)
    requires 4 * ((addr + 3) / 4) - addr <= size
    ensures Region(addr, size).Has(w) <==> addr <= 4 * w && 4 * w + 4 <= addr + size
  {
  }

  lemma AddPlace(h: Heap, b: Node)
    requires Inv(h) && NodeOk(b, h.top) && forall w: nat :: b.Has(w) ==> w !in h.added
    ensures Apart(h.free, b) && !Covers(h.free, b.addr)
  {
    assert b.Has(b.addr);
    NotCoveredApart(h.free, h.top, b);
  }

  lemma AddUntouched(h: Heap, m: seq<nat>, m': seq<nat>, b: Node)
    requires Inv(h) && |m| == |m'| == h.top && forall w: nat :: b.Has(w) ==> w !in h.added
    requires b.size > 0
    requires forall w :: 0 <= w < |m| && !Covers(h.free, w) && !b.Has(w) && w != b.addr ==> m'[w] == m[w]
    ensures forall a :: a in h.live ==> BlockKept(m, m', Node(a, h.live[a]))
  {
    forall a | a in h.live ensures BlockKept(m, m', Node(a, h.live[a])) {
      forall w: nat | Node(a, h.live[a]).Has(w) && w < |m| ensures m'[w] == m[w] {
        ApartNotCovered(h.free, Node(a, h.live[a]), w);
        assert Live(h.live, w);
        assert b.Has(b.addr);
      }
    }
  }

  lemma RepFrameAt(m: seq<nat>, m': seq<nat>, root: nat, l: seq<Node>, a: nat)
    requires WF(l, |m|) && Rep(m, root, l) && |m'| == |m| && !Covers(l, a)
    requires forall w :: 0 <= w < |m| && w != a ==> m'[w] == m[w]
    ensures Rep(m', root, l)
  {
    RepFrame(m, m', root, l);
  }

  lemma NodeBounds(l: seq<Node>, top: nat)
    requires WF(l, top)
    ensures forall j :: 0 <= j < |l| ==> l[j].addr >= 1 && NODE_WORDS <= l[j].size <= top
  {
  }

  lemma LiveSizes(h: Heap)
    requires LiveOk(h)
    ensures forall a :: a in h.live ==> h.live[a] >= NODE_WORDS && a >= 1 && a + h.live[a] <= h.top
  {
  }

  lemma Unmoved(h: Heap, m: seq<nat>)
    ensures forall a :: a in h.live ==> BlockKept(m, m, Node(a, h.live[a]))
  {
  }

  /** A block that may be passed to free is inside a free node, or a node apart from all of them. */
  lemma FreeablePlace(h: Heap, m: seq<nat>, a: nat)
    requires Inv(h) && h.top == |m| && (a in h.live || Covers(h.free, a))
    requires forall c :: c in h.live ==> c < |m| && m[c] == h.live[c]
    ensures 1 <= a < |m|
    ensures Covers(h.free, a) || (NodeOk(Node(a, m[a]), |m|) && Apart(h.free, Node(a, m[a])))
    ensures a in h.live ==> !Covers(h.free, a) && m[a] == h.live[a]
  {
    if a in h.live { ApartNotCovered(h.free, Block(h, a), a); }
  }

  /** Live blocks other than b lie outside the free list and outside b. */
  lemma LiveUntouched(h: Heap, m: seq<nat>, m': seq<nat>, b: Node)
    requires LiveOk(h) && |m| == |m'| == h.top && b.addr in h.live && b.size == h.live[b.addr]
    requires forall w :: 0 <= w < |m| && !Covers(h.free, w) && !b.Has(w) ==> m'[w] == m[w]
    ensures forall a :: a in h.live && a != b.addr ==> BlockKept(m, m', Node(a, h.live[a]))
  {
    forall a | a in h.live && a != b.addr ensures BlockKept(m, m', Node(a, h.live[a])) {
      forall w: nat | Node(a, h.live[a]).Has(w) && w < |m| ensures m'[w] == m[w] {
        ApartNotCovered(h.free, Node(a, h.live[a]), w);
      }
    }
  }

  /** Sizes recorded in live headers survive when the blocks do. */
  lemma HeadersKept(live: map<nat, nat>, m: seq<nat>, m': seq<nat>, live': map<nat, nat>)
    requires |m| == |m'| && forall a :: a in live ==> a < |m| && m[a] == live[a]
    requires forall a :: a in live' ==>
      a in live && live'[a] == live[a] && live[a] > 0 && BlockKept(m, m', Node(a, live[a]))
    ensures forall a :: a in live' ==> a < |m'| && m'[a] == live'[a]
  {
    forall a | a in live' ensures a < |m'| && m'[a] == live'[a] {
      assert Node(a, live[a]).Has(a);
    }
  }

  lemma NoFit(h: Heap, need: nat)
    requires NoneFits(h.free, need, |h.free|)
    ensures AllocStep(h, need) == (h, None)
  {
  }

  lemma OutsideUntouched(h: Heap, m: seq<nat>, m': seq<nat>)
    requires LiveOk(h) && |m| == h.top && SameOutside(m, m', h.free)
    ensures forall a :: a in h.live ==> BlockKept(m, m', Node(a, h.live[a]))
  {
    forall a | a in h.live ensures BlockKept(m, m', Node(a, h.live[a])) {
      forall w: nat | Node(a, h.live[a]).Has(w) && w < |m| ensures m'[w] == m[w] {
        ApartNotCovered(h.free, Node(a, h.live[a]), w);
      }
    }
  }

  /** Writes to the user area of a live block disturb nothing else. */
  lemma PayloadFrame(h: Heap, m: seq<nat>, m': seq<nat>, root: nat, a: nat)
    requires Inv(h) && h.top == |m| == |m'| && Rep(m, root, h.free) && a in h.live
    requires forall c :: c in h.live ==> c < |m| && m[c] == h.live[c]
    requires forall w :: 0 <= w < |m| && !(a < w < a + h.live[a]) ==> m'[w] == m[w]
    ensures Rep(m', root, h.free)
    ensures forall c :: c in h.live ==> c < |m'| && m'[c] == h.live[c]
    ensures forall c :: c in h.live && c != a ==> BlockKept(m, m', Node(c, h.live[c]))
  {
    forall w | 0 <= w < |m| && Covers(h.free, w) ensures m'[w] == m[w] {
      if Node(a, h.live[a]).Has(w) { ApartNotCovered(h.free, Node(a, h.live[a]), w); }
    }
    RepFrame(m, m', root, h.free);
  }

  lemma ReallocMoves(h: Heap, a: nat, need: nat)
    requires a in h.live && h.live[a] < need && !CanGrow(h, a, need)
    requires AllocStep(h, need + OVERHEAD_WORDS).1.Some? && a in AllocStep(h, need + OVERHEAD_WORDS).0.live
    ensures var (h1, b) := AllocStep(h, need + OVERHEAD_WORDS);
      ReallocStep(h, a, need) == (FreeStep(h1, a), Some(b.value.addr))
  {
  }

  lemma ReallocFails(h: Heap, a: nat, need: nat)
    requires a in h.live && h.live[a] < need && !CanGrow(h, a, need) && AllocStep(h, need + OVERHEAD_WORDS) == (h, None)
    ensures ReallocStep(h, a, need) == (h, None)
  {
  }

  lemma BlocksApart(h: Heap, a: nat, b: nat)
    requires LiveOk(h) && a in h.live && b in h.live && a != b
    ensures a + h.live[a] <= b || b + h.live[b] <= a
  {
  }

  lemma FreshNotCovered(h: Heap, a: nat)
    requires LiveOk(h) && a in h.live
    ensures !Covers(h.free, a)
  {
    ApartNotCovered(h.free, Block(h, a), a);
  }

  lemma FreeStepLive(h: Heap, a: nat)
    requires a in h.live
    ensures FreeStep(h, a).live == h.live - {a}
  {
  }

  lemma KeptTwice(m0: seq<nat>, m1: seq<nat>, m2: seq<nat>, n: Node)
    requires |m0| == |m1| == |m2| && BlockKept(m0, m1, n) && BlockKept(m1, m2, n)
    ensures BlockKept(m0, m2, n)
  {
  }

  lemma KeptMany(live: map<nat, nat>, m0: seq<nat>, m1: seq<nat>, m2: seq<nat>, a: nat)
    requires |m0| == |m1| == |m2|
    requires forall c :: c in live ==> BlockKept(m0, m1, Node(c, live[c]))
    requires forall c :: c in live && c != a ==> BlockKept(m1, m2, Node(c, live[c]))
    ensures forall c :: c in live && c != a ==> BlockKept(m0, m2, Node(c, live[c]))
  {
    forall c | c in live && c != a ensures BlockKept(m0, m2, Node(c, live[c])) {
      KeptTwice(m0, m1, m2, Node(c, live[c]));
    }
  }

  lemma UserFrom(m0: seq<nat>, m1: seq<nat>, m2: seq<nat>, a: nat, to: nat, have: nat)
    requires |m0| == |m1| == |m2| && BlockKept(m0, m1, Node(a, have)) && UserKept(m1, a + 1, m2, to, have - 1)
    ensures UserKept(m0, a + 1, m2, to, have - 1)
  {
    forall w | to <= w < to + have - 1 ensures m2[w] == m0[w - to + a + 1] {
      assert Node(a, have).Has(w - to + a + 1);
    }
  }

  /** Copying fills block b from a, freeing keeps block b. */
  lemma UserMoved(m1: seq<nat>, m2: seq<nat>, m3: seq<nat>, a: nat, b: nat, have: nat, got: nat)
    requires |m1| == |m2| == |m3| && 1 <= have <= got && a + have <= |m1| && b + got <= |m1|
    requires BlockKept(m2, m3, Node(b, got))
    requires forall w :: b + 1 <= w < b + have ==> m2[w] == m1[w - b + a]
    ensures UserKept(m1, a + 1, m3, b + 1, have - 1)
  {
    forall w | b + 1 <= w < b + have ensures m3[w] == m1[w - b + a] {
      assert Node(b, got).Has(w);
    }
  }

  /** A resized block's leading words, up to the smaller of both sizes. */
  lemma KeptUser(m: seq<nat>, m': seq<nat>, a: nat, n: nat, need: nat)
    requires |m| == |m'| && a + 1 + n <= |m| && forall w :: a < w < a + 1 + n ==> m'[w] == m[w]
    ensures UserKept(m, a + 1, m', a + 1, Min(n + 1, need) - 1)
  {
  }

  /** Changes to free words and to the header of block a alone. */
  lemma ResizedInPlace(h: Heap, m: seq<nat>, m': seq<nat>, a: nat)
    requires LiveOk(h) && |m| == |m'| == h.top && a in h.live
    requires forall c :: c in h.live ==> c < |m| && m[c] == h.live[c]
    requires forall w :: 0 <= w < |m| && w != a && !Covers(h.free, w) ==> m'[w] == m[w]
    ensures forall c :: c in h.live && c != a ==> BlockKept(m, m', Node(c, h.live[c])) && m'[c] == h.live[c]
    ensures forall w :: a < w < a + h.live[a] ==> m'[w] == m[w]
  {
    forall c | c in h.live && c != a ensures BlockKept(m, m', Node(c, h.live[c])) && m'[c] == h.live[c] {
      forall w: nat | Node(c, h.live[c]).Has(w) && w < |m| ensures m'[w] == m[w] {
        ApartNotCovered(h.free, Node(c, h.live[c]), w);
      }
      assert Node(c, h.live[c]).Has(c);
    }
    forall w | a < w < a + h.live[a] ensures m'[w] == m[w] {
      ApartNotCovered(h.free, Node(a, h.live[a]), w);
    }
  }

  /** Changes to free words, to words of block a past `need`, and to its header. */
  lemma CutInPlace(h: Heap, m: seq<nat>, m': seq<nat>, a: nat, need: nat)
    requires LiveOk(h) && |m| == |m'| == h.top && a in h.live
    requires forall c :: c in h.live ==> c < |m| && m[c] == h.live[c]
    requires 1 <= need <= h.live[a]
    requires forall w :: 0 <= w < |m| && w != a && !Covers(h.free, w) && !(a + need <= w < a + h.live[a]) ==>
      m'[w] == m[w]
    ensures forall c :: c in h.live && c != a ==> BlockKept(m, m', Node(c, h.live[c])) && m'[c] == h.live[c]
    ensures UserKept(m, a + 1, m', a + 1, need - 1)
  {
    forall c | c in h.live && c != a ensures BlockKept(m, m', Node(c, h.live[c])) && m'[c] == h.live[c] {
      forall w: nat | Node(c, h.live[c]).Has(w) && w < |m| ensures m'[w] == m[w] {
        ApartNotCovered(h.free, Node(c, h.live[c]), w);
      }
      assert Node(c, h.live[c]).Has(c);
    }
    forall w | a < w < a + need ensures m'[w] == m[w] {
      ApartNotCovered(h.free, Node(a, h.live[a]), w);
    }
  }

  lemma TailApart(h: Heap, a: nat, need: nat)
    requires LiveOk(h) && a in h.live && 1 <= need && need + NODE_WORDS < h.live[a]
    ensures var tail := Node(a + need, h.live[a] - need);
      NodeOk(tail, h.top) && Apart(h.free, tail) && !Covers(h.free, a + need)
  {
    assert Apart(h.free, Node(a, h.live[a]));
    ApartNotCovered(h.free, Node(a, h.live[a]), a + need);
  }

  lemma NeedBelow(size: nat)
    ensures 4 * Need(size) < U32
  {
  }

  lemma AllocFailsUnchanged(h: Heap, need: nat)
    ensures AllocStep(h, need).1.None? ==> AllocStep(h, need).0 == h
  {
  }

  lemma AllocIs(h: Heap, need: nat, k: nat)
    requires IsBestFit(h.free, need, k)
    ensures BestFit(h.free, need) == Some(k)
    ensures AllocStep(h, need) == (h.(free := TakeFrom(h.free, k, need).0,
      live := h.live[TakeFrom(h.free, k, need).1.addr := TakeFrom(h.free, k, need).1.size]),
        Some(TakeFrom(h.free, k, need).1))
  {
    var i: nat :| IsBestFit(h.free, need, i) && BestFit(h.free, need) == Some(i);
    BestFitUnique(h.free, need, i, k);
  }
}

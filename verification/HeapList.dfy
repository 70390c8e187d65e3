/** The free list of the Nut/OS heap as a value, in units of 4-byte words: a node has an address and a
    size that counts its one-word header; two words (size and link) are the least a node can be. */
module HeapList {
  import opened Bits

  const NODE_WORDS: nat := 2
  const OVERHEAD_WORDS: nat := 1

  datatype Node = Node(addr: nat, size: nat) {
    function End(): nat { addr + size }

    predicate Has(w: nat) { addr <= w < addr + size }
  }

  // Request sizes.

  /** Words needed for a request of `size` bytes, in 32-bit arithmetic: add the header, allow for a
      link, round up to the alignment. */
  function Need(size: nat): nat {
    var n := (size + 4) % U32;
    var m := if n < 8 then 8 else n;
    ((m + 3) % U32) / 4
  }

  /** The computed block covers header and request exactly when the sum does not wrap. */
  lemma NeedCovers(size: nat, m: nat)
    requires size < U32
    ensures 4 * Need(size) >= size + 4 <==> size <= U32 - 8
    ensures size <= U32 - 8 ==> (Need(size) <= m <==> size + 4 <= 4 * m && NODE_WORDS <= m)
  {
  }

  /** Sizes for which the rounded block can hold a node at all; for the three others it is empty. */
  predicate Askable(size: nat) { size < U32 && Need(size) >= NODE_WORDS }

  lemma NeedIs(size: nat)
    requires size < U32
    ensures size < 4 ==> Need(size) == 2
    ensures 4 <= size <= U32 - 8 ==> Need(size) == (size + 7) / 4
    ensures U32 - 7 <= size < U32 - 4 ==> Need(size) == 0
    ensures U32 - 4 <= size ==> Need(size) == 2
  {
  }

  lemma AskableSizes(size: nat)
    requires size < U32
    ensures Askable(size) <==> size <= U32 - 8 || U32 - 4 <= size
  {
    hide Need;
    NeedIs(size);
  }

  /** Sizes whose rounded block can also be asked for again, as relocation does. */
  predicate AskableAgain(size: nat) { Askable(size) && Need(4 * Need(size)) == Need(size) + OVERHEAD_WORDS }

  lemma AskableAgainSizes(size: nat)
    requires size < U32
    ensures AskableAgain(size) <==> size <= U32 - 12 || U32 - 4 <= size
    ensures 4 * Need(size) >= size + 4 && AskableAgain(size) <==> size <= U32 - 12
  {
    hide Need;
    NeedIs(size);
    NeedIs(4 * Need(size));
  }

  // Lists.

  /** Address-ordered, every node large enough and below `top`, and a gap between any two. */
  ghost predicate WF(l: seq<Node>, top: nat) {
    && (forall i :: 0 <= i < |l| ==> l[i].addr >= 1 && l[i].size >= NODE_WORDS && l[i].End() <= top)
    && (forall i, j :: 0 <= i < j < |l| ==> l[i].End() < l[j].addr)
  }

  /** Word w lies in some node. */
  ghost predicate Covers(l: seq<Node>, w: nat) {
    exists i :: 0 <= i < |l| && l[i].Has(w)
  }

  ghost predicate Apart(l: seq<Node>, b: Node) {
    forall i :: 0 <= i < |l| ==> l[i].End() <= b.addr || b.End() <= l[i].addr
  }

  /** The first node at or after address a. */
  ghost predicate IsPosition(l: seq<Node>, a: nat, p: nat) {
    && p <= |l|
    && (forall i :: 0 <= i < p ==> l[i].addr < a)
    && (forall i :: p <= i < |l| ==> a <= l[i].addr)
  }

  // Allocation.

  /** Node i is the lowest among the smallest nodes of at least `need` words. */
  ghost predicate IsBestFit(l: seq<Node>, need: nat, i: nat) {
    && i < |l|
    && l[i].size >= need
    && (forall j :: 0 <= j < |l| && l[j].size >= need ==> l[i].size <= l[j].size)
    && (forall j :: 0 <= j < i && l[j].size >= need ==> l[i].size < l[j].size)
  }

  /** Take `need` words from node i, or all of it when the rest could not hold a node. */
  function TakeFrom(l: seq<Node>, i: nat, need: nat): (seq<Node>, Node)
    requires i < |l| && l[i].size >= need
  {
    if l[i].size - need >= NODE_WORDS
    then (l[i := Node(l[i].addr + need, l[i].size - need)], Node(l[i].addr, need))
    else (l[..i] + l[i + 1..], l[i])
  }

  lemma BestFitUnique(l: seq<Node>, need: nat, i: nat, j: nat)
    requires IsBestFit(l, need, i) && IsBestFit(l, need, j)
    ensures i == j
  {
  }

  // Lists are handled as a node between two lists.

  ghost predicate Before(l: seq<Node>, a: nat) {
    forall i :: 0 <= i < |l| ==> l[i].End() < a
  }

  ghost predicate After(l: seq<Node>, a: nat) {
    forall i :: 0 <= i < |l| ==> a < l[i].addr
  }

  ghost predicate NodeOk(n: Node, top: nat) {
    n.addr >= 1 && n.size >= NODE_WORDS && n.End() <= top
  }

  lemma JoinWF(x: seq<Node>, n: Node, y: seq<Node>, top: nat)
    requires WF(x, top) && WF(y, top) && NodeOk(n, top) && Before(x, n.addr) && After(y, n.End())
    ensures WF(x + [n] + y, top)
  {
    var l := x + [n] + y;
    forall i | 0 <= i < |l| ensures NodeOk(l[i], top) {
      if i > |x| { assert l[i] == y[i - |x| - 1]; }
    }
    forall i, j | 0 <= i < j < |l| ensures l[i].End() < l[j].addr {
      if j > |x| { assert l[j] == y[j - |x| - 1]; }
      if i > |x| { assert l[i] == y[i - |x| - 1]; }
    }
  }

  lemma JoinTwoWF(x: seq<Node>, y: seq<Node>, top: nat, a: nat)
    requires WF(x, top) && WF(y, top) && Before(x, a) && After(y, a)
    ensures WF(x + y, top)
  {
    var l := x + y;
    forall i, j | 0 <= i < j < |l| ensures l[i].End() < l[j].addr {
      if j >= |x| { assert l[j] == y[j - |x|]; }
      if i >= |x| { assert l[i] == y[i - |x|]; }
    }
  }

  lemma SliceWF(l: seq<Node>, top: nat, lo: nat, hi: nat)
    requires WF(l, top) && lo <= hi <= |l|
    ensures WF(l[lo..hi], top)
  {
    var s := l[lo..hi];
    forall i, j | 0 <= i < j < |s| ensures s[i].End() < s[j].addr {
      assert s[i] == l[lo + i] && s[j] == l[lo + j];
    }
  }

  lemma CoversTwo(x: seq<Node>, y: seq<Node>, w: nat)
    ensures Covers(x + y, w) <==> Covers(x, w) || Covers(y, w)
  {
    var l := x + y;
    if Covers(x, w) { var i :| 0 <= i < |x| && x[i].Has(w); assert l[i].Has(w); }
    if Covers(y, w) { var i :| 0 <= i < |y| && y[i].Has(w); assert l[|x| + i].Has(w); }
  }

  lemma CoversJoin(x: seq<Node>, n: Node, y: seq<Node>, w: nat)
    ensures Covers(x + [n] + y, w) <==> Covers(x, w) || n.Has(w) || Covers(y, w)
  {
    CoversTwo(x, [n], w);
    CoversTwo(x + [n], y, w);
    assert Covers([n], w) <==> n.Has(w) by { assert [n][0] == n; }
  }

  lemma SplitAt(l: seq<Node>, top: nat, i: nat)
    requires WF(l, top) && i < |l|
    ensures l == l[..i] + [l[i]] + l[i + 1..]
    ensures WF(l[..i], top) && WF(l[i + 1..], top) && NodeOk(l[i], top)
    ensures Before(l[..i], l[i].addr) && After(l[i + 1..], l[i].End())
  {
    SliceWF(l, top, 0, i);
    SliceWF(l, top, i + 1, |l|);
    assert l[i + 1..|l|] == l[i + 1..];
    var y := l[i + 1..];
    forall j | 0 <= j < |y| ensures l[i].End() < y[j].addr {
      assert y[j] == l[i + 1 + j];
    }
  }

  lemma TakeFromWF(l: seq<Node>, top: nat, i: nat, need: nat)
    requires WF(l, top) && i < |l| && 1 <= need <= l[i].size
    ensures WF(TakeFrom(l, i, need).0, top)
    ensures TakeFrom(l, i, need).1.size >= need
  {
    SplitAt(l, top, i);
    var rest := Node(l[i].addr + need, l[i].size - need);
    if rest.size >= NODE_WORDS {
      JoinWF(l[..i], rest, l[i + 1..], top);
      assert l[i := rest] == l[..i] + [rest] + l[i + 1..];
    } else {
      JoinTwoWF(l[..i], l[i + 1..], top, l[i].addr);
    }
  }

  /** What is taken starts where the node does; it is exactly what was asked for, or the whole node when
      the rest could not be a node of its own. */
  lemma TakenIs(l: seq<Node>, i: nat, need: nat)
    requires i < |l| && 1 <= need <= l[i].size
    ensures var b := TakeFrom(l, i, need).1;
      b.addr == l[i].addr && b.size == (if l[i].size < need + NODE_WORDS then l[i].size else need)
  {
  }

  /** A word of a node belongs to no list before or after it. */
  lemma ApartCovers(l: seq<Node>, n: Node, w: nat)
    requires Before(l, n.addr) || After(l, n.End())
    ensures !(Covers(l, w) && n.Has(w))
  {
  }

  /** The words of the list are split between the new list and the block. */
  lemma TakeFromCovers(l: seq<Node>, top: nat, i: nat, need: nat, w: nat)
    requires WF(l, top) && i < |l| && 1 <= need <= l[i].size
    ensures var (l', b) := TakeFrom(l, i, need);
      && (Covers(l, w) <==> Covers(l', w) || b.Has(w))
      && !(Covers(l', w) && b.Has(w))
  {
    SplitAt(l, top, i);
    CoversJoin(l[..i], l[i], l[i + 1..], w);
    ApartCovers(l[..i], l[i], w);
    ApartCovers(l[i + 1..], l[i], w);
    var rest := Node(l[i].addr + need, l[i].size - need);
    if rest.size >= NODE_WORDS {
      CoversJoin(l[..i], rest, l[i + 1..], w);
      assert l[i := rest] == l[..i] + [rest] + l[i + 1..];
    } else {
      CoversTwo(l[..i], l[i + 1..], w);
    }
    hide Covers, WF, Before, After;
  }

  // Release.

  /** Join n with the last node of x when that ends where n begins. */
  function MergeLeft(x: seq<Node>, n: Node): (seq<Node>, Node) {
    if x != [] && x[|x| - 1].End() == n.addr
    then (x[..|x| - 1], Node(x[|x| - 1].addr, x[|x| - 1].size + n.size))
    else (x, n)
  }

  /** Join n with the first node of y when n ends where that begins. */
  function MergeRight(n: Node, y: seq<Node>): (Node, seq<Node>) {
    if y != [] && n.End() == y[0].addr then (Node(n.addr, n.size + y[0].size), y[1..]) else (n, y)
  }

  /** Insert b at position p, joined with adjacent nodes on either side. */
  function Insert(l: seq<Node>, b: Node, p: nat): seq<Node>
    requires p <= |l|
  {
    var (x, n) := MergeLeft(l[..p], b);
    var (m, y) := MergeRight(n, l[p..]);
    x + [m] + y
  }

  lemma MergeLeftOk(x: seq<Node>, n: Node, top: nat, w: nat)
    requires WF(x, top) && NodeOk(n, top) && forall i :: 0 <= i < |x| ==> x[i].End() <= n.addr
    ensures var (x', n') := MergeLeft(x, n);
      && WF(x', top) && NodeOk(n', top) && Before(x', n'.addr) && n'.End() == n.End()
      && (Covers(x', w) || n'.Has(w) <==> Covers(x, w) || n.Has(w))
  {
    if x != [] {
      var k := |x| - 1;
      SplitAt(x, top, k);
      if x[k].End() == n.addr {
        CoversJoin(x[..k], x[k], [], w);
        assert x == x[..k] + [x[k]] + [];
      } else {
        forall i | 0 <= i < |x| ensures x[i].End() < n.addr {
          assert i < k ==> x[i].End() < x[k].addr;
        }
      }
    }
  }

  lemma MergeRightOk(n: Node, y: seq<Node>, top: nat, w: nat)
    requires WF(y, top) && NodeOk(n, top) && forall i :: 0 <= i < |y| ==> n.End() <= y[i].addr
    ensures var (n', y') := MergeRight(n, y);
      && WF(y', top) && NodeOk(n', top) && After(y', n'.End()) && n'.addr == n.addr
      && (n'.Has(w) || Covers(y', w) <==> n.Has(w) || Covers(y, w))
  {
    if y != [] {
      SplitAt(y, top, 0);
      if n.End() == y[0].addr {
        CoversJoin([], y[0], y[1..], w);
        assert y == [] + [y[0]] + y[1..];
      } else {
        forall i | 0 <= i < |y| ensures n.End() < y[i].addr {
          assert i > 0 ==> y[0].End() < y[i].addr;
        }
      }
    }
  }

  /** A list cut at the position of a block that lies apart from it. */
  lemma CutAt(l: seq<Node>, top: nat, b: Node, p: nat)
    requires WF(l, top) && IsPosition(l, b.addr, p) && Apart(l, b) && b.size >= 1
    ensures WF(l[..p], top) && WF(l[p..], top)
    ensures forall i :: 0 <= i < |l[..p]| ==> l[..p][i].End() <= b.addr
    ensures forall i :: 0 <= i < |l[p..]| ==> b.End() <= l[p..][i].addr
  {
    SliceWF(l, top, 0, p);
    SliceWF(l, top, p, |l|);
    assert l[p..|l|] == l[p..];
  }

  /** Inserting keeps the list in form and adds exactly the words of the block. */
  lemma InsertOk(l: seq<Node>, top: nat, b: Node, p: nat, w: nat)
    requires WF(l, top) && IsPosition(l, b.addr, p) && Apart(l, b) && NodeOk(b, top)
    ensures WF(Insert(l, b, p), top)
    ensures Covers(Insert(l, b, p), w) <==> Covers(l, w) || b.Has(w)
  {
    hide MergeLeft, MergeRight, Covers, WF, Before, After, Apart;
    CutAt(l, top, b, p);
    MergeLeftOk(l[..p], b, top, w);
    var (x, n) := MergeLeft(l[..p], b);
    MergeRightOk(n, l[p..], top, w);
    var (m, y) := MergeRight(n, l[p..]);
    JoinWF(x, m, y, top);
    CoversJoin(x, m, y, w);
    assert l == l[..p] + l[p..];
    CoversTwo(l[..p], l[p..], w);
  }

  /** Where freeing a block that already lies in a free node is noticed. */
  lemma InsideIsFound(l: seq<Node>, top: nat, a: nat, p: nat)
    requires WF(l, top) && IsPosition(l, a, p)
    ensures Covers(l, a) <==> (p < |l| && l[p].addr == a) || (p > 0 && l[p - 1].End() > a)
  {
    if p < |l| && l[p].addr == a { assert l[p].Has(a); }
    if p > 0 && l[p - 1].End() > a { assert l[p - 1].Has(a); }
    if Covers(l, a) {
      var i :| 0 <= i < |l| && l[i].Has(a);
      if i < p - 1 { assert l[i].End() < l[p - 1].addr; }
      if i > p { assert l[p].End() < l[i].addr; }
    }
  }

  // Canonical form.

  lemma CoversTail(l: seq<Node>, top: nat, w: nat)
    requires WF(l, top) && l != []
    ensures Covers(l[1..], w) <==> Covers(l, w) && w >= l[0].End()
    ensures Covers(l, w) && w < l[0].End() <==> l[0].Has(w)
    ensures WF(l[1..], top)
  {
    if Covers(l[1..], w) {
      var i :| 0 <= i < |l[1..]| && l[1..][i].Has(w);
      assert l[i + 1].Has(w);
    }
    if Covers(l, w) {
      var i :| 0 <= i < |l| && l[i].Has(w);
      if i > 0 { assert l[1..][i - 1].Has(w); }
    }
  }

  lemma CoversOwn(l: seq<Node>)
    requires l != [] && l[0].size > 0
    ensures Covers(l, l[0].addr)
  {
    assert l[0].Has(l[0].addr);
  }

  /** The list is a function of the set of free words. */
  lemma {:induction false} Canonical(a: seq<Node>, b: seq<Node>, top: nat)
    requires WF(a, top) && WF(b, top)
    requires forall w: nat :: Covers(a, w) <==> Covers(b, w)
    ensures a == b
  {
    if a == [] || b == [] {
      if a != [] { CoversOwn(a); }
      if b != [] { CoversOwn(b); }
    } else {
      FirstNode(a, b, top);
      FirstNode(b, a, top);
      assert a[0] == b[0];
      forall w: nat ensures Covers(a[1..], w) <==> Covers(b[1..], w) {
        CoversTail(a, top, w);
        CoversTail(b, top, w);
      }
      CoversTail(a, top, 0);
      CoversTail(b, top, 0);
      Canonical(a[1..], b[1..], top);
      assert a == [a[0]] + a[1..] && b == [b[0]] + b[1..];
    }
  }

  /** Equal coverage: a's first node starts no earlier, and where both start together ends no later. */
  lemma FirstNode(a: seq<Node>, b: seq<Node>, top: nat)
    requires WF(a, top) && WF(b, top) && a != [] && b != []
    requires forall w: nat :: Covers(a, w) <==> Covers(b, w)
    ensures b[0].addr <= a[0].addr
    ensures a[0].addr == b[0].addr ==> a[0].size <= b[0].size
  {
    assert a[0].Has(a[0].addr);
    assert Covers(b, a[0].addr);
    assert a[0].addr == b[0].addr && a[0].size > b[0].size ==> a[0].Has(b[0].End());
    GapAfterFirst(b, top);
  }

  lemma GapAfterFirst(l: seq<Node>, top: nat)
    requires WF(l, top) && l != []
    ensures !Covers(l, l[0].End())
  {
    forall i | 0 <= i < |l| ensures !l[i].Has(l[0].End()) {
      if i > 0 { assert l[0].End() < l[i].addr; }
    }
  }
}

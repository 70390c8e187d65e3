/** The byte ring buffer of utils/ringbuffer.c: a bounded queue that drops its oldest byte when full.
    Indices are free-running 32-bit counters; `size` is kept as the mask size - 1. */
module RingBuffers {
  import opened Bits

  // The queue it implements.

  /** Append x, dropping the oldest byte when `cap` are already queued. */
  function Put(cap: nat, q: seq<byte>, x: byte): (r: seq<byte>)
    requires |q| <= cap && cap > 0
    ensures |r| <= cap
  {
    if |q| == cap then q[1..] + [x] else q + [x]
  }

  datatype Op = PutOp(byte: byte) | GetOp | FlushOp

  function Apply(cap: nat, q: seq<byte>, op: Op): (r: seq<byte>)
    requires |q| <= cap && cap > 0
    ensures |r| <= cap
  {
    match op
    case PutOp(x) => Put(cap, q, x)
    case GetOp => if q == [] then q else q[1..]
    case FlushOp => []
  }

  function Queue(cap: nat, ops: seq<Op>): (q: seq<byte>)
    requires cap > 0
    ensures |q| <= cap
  {
    if ops == [] then [] else Apply(cap, Queue(cap, ops[..|ops| - 1]), ops[|ops| - 1])
  }

  function Logged(s: seq<byte>, op: Op): seq<byte> {
    match op {
      case PutOp(x) => s + [x]
      case _ => s
    }
  }

  /** All bytes ever put. */
  function Bytes(ops: seq<Op>): seq<byte> {
    if ops == [] then [] else Logged(Bytes(ops[..|ops| - 1]), ops[|ops| - 1])
  }

  function Counted(cap: nat, n: nat, op: Op): nat {
    match op
    case PutOp(_) => if n < cap then n + 1 else cap
    case GetOp => if n == 0 then 0 else n - 1
    case FlushOp => 0
  }

  /** How many bytes are unread. */
  function Unread(cap: nat, ops: seq<Op>): nat {
    if ops == [] then 0 else Counted(cap, Unread(cap, ops[..|ops| - 1]), ops[|ops| - 1])
  }

  lemma StepSuffix(cap: nat, s: seq<byte>, n: nat, op: Op)
    requires 0 < cap && n <= cap && n <= |s|
    ensures var s', n' := Logged(s, op), Counted(cap, n, op);
      n' <= cap && n' <= |s'| && Apply(cap, s[|s| - n..], op) == s'[|s'| - n'..]
  {
  }

  /** After any sequence of operations the queue holds the most recent unread bytes, in order. */
  lemma {:induction false} MostRecent(cap: nat, ops: seq<Op>)
    requires cap > 0
    ensures Unread(cap, ops) <= cap && Unread(cap, ops) <= |Bytes(ops)|
    ensures Queue(cap, ops) == Bytes(ops)[|Bytes(ops)| - Unread(cap, ops)..]
  {
    hide Apply, Logged, Counted;
    if ops != [] {
      var rest := ops[..|ops| - 1];
      MostRecent(cap, rest);
      StepSuffix(cap, Bytes(rest), Unread(cap, rest), ops[|ops| - 1]);
    }
  }

  // Index arithmetic.

  /** The masked counter that is `i` past a 32-bit counter. */
  lemma Masked(c: nat, i: nat, k: nat)
    requires k <= 32
    ensures And((c + i) % U32, Pow2(k) - 1) == (c + i) % Pow2(k)
    ensures And((c % U32 + i) % U32, Pow2(k) - 1) == (c + i) % Pow2(k)
  {
    hide And, Pow2;
    Pow2Values();
    MaskedCounter(c + i, k, 32);
    WrapAddOfRem(c, i, U32);
  }

  lemma SizeBound(k: nat)
    requires Pow2(k) < U32
    ensures k < 32
  {
    Pow2Values();
    if k >= 32 { Pow2Mono(32, k); }
  }

  function Next(c: nat): (r: nat)
    ensures r < U32
  {
    (c + 1) % U32
  }

  function Cell(mask: nat, c: nat): (r: nat)
    ensures r <= mask
  {
    And(c % U32, mask)
  }

  /** Two of at most mask + 1 successive counters never share a cell. */
  lemma CellsApart(mask: nat, c: nat, i: nat, j: nat)
    requires mask + 1 < U32 && IsPow2(mask + 1) && i < j <= i + mask
    ensures Cell(mask, c + i) != Cell(mask, c + j)
  {
    var k: nat :| mask + 1 == Pow2(k);
    SizeBound(k);
    Masked(c, i, k);
    Masked(c, j, k);
    RemApart(c + i, c + j, Pow2(k));
  }

  /** The counter wraps without leaving its cell. */
  lemma CellWraps(mask: nat, c: nat, i: nat)
    ensures Cell(mask, c % U32 + i) == Cell(mask, c + i)
  {
    WrapAddOfRem(c, i, U32);
  }

  /** The n bytes from counter `read` on. */
  ghost function Window(b: seq<byte>, mask: nat, read: nat, n: nat): (q: seq<byte>)
    requires mask < |b|
    ensures |q| == n
    ensures forall i: nat {:trigger q[i]} :: i < n ==> q[i] == b[Cell(mask, read + i)]
  {
    seq(n, (i: nat) => b[Cell(mask, read + i)])
  }

  lemma WindowTail(b: seq<byte>, mask: nat, read: nat, n: nat)
    requires mask < |b| && n > 0
    ensures Window(b, mask, read, n)[0] == b[Cell(mask, read)]
    ensures Window(b, mask, Next(read), n - 1) == Window(b, mask, read, n)[1..]
  {
    hide Cell;
    var q, t := Window(b, mask, read, n), Window(b, mask, Next(read), n - 1);
    forall i: nat | i < n - 1 ensures t[i] == q[1..][i] {
      CellWraps(mask, read + 1, i);
      assert read + 1 + i == read + (i + 1);
    }
  }

  /** Writing the cell behind a window that does not fill the ring extends it. */
  lemma WindowExtend(b: seq<byte>, mask: nat, read: nat, n: nat, x: byte)
    requires mask < |b| && n <= mask && mask + 1 < U32 && IsPow2(mask + 1)
    ensures Window(b[Cell(mask, read + n) := x], mask, read, n + 1) == Window(b, mask, read, n) + [x]
  {
    hide Cell, IsPow2;
    var b' := b[Cell(mask, read + n) := x];
    var q, t := Window(b, mask, read, n), Window(b', mask, read, n + 1);
    forall i: nat | i < n + 1 ensures t[i] == (q + [x])[i] {
      if i < n { CellsApart(mask, read, i, n); }
    }
  }

  lemma CountsDown(write: nat, read: nat)
    requires write < U32 && read < U32 && write != read
    ensures WrapSub(write, read, U32) > 0
    ensures WrapSub(write, Next(read), U32) == WrapSub(write, read, U32) - 1
  {
  }

  lemma CellOf(mask: nat, c: nat)
    requires c < U32
    ensures Cell(mask, c) == And(c, mask) <= mask
  {
    hide And;
  }

  lemma WrapBack(write: nat, read: nat)
    requires write < U32 && read < U32
    ensures (read + WrapSub(write, read, U32)) % U32 == write
  {
  }

  lemma CountUp(write: nat, read: nat)
    requires write < U32 && read < U32 && WrapSub(write, read, U32) + 1 < U32
    ensures WrapSub(Next(write), read, U32) == WrapSub(write, read, U32) + 1
  {
  }

  lemma CountBoth(write: nat, read: nat)
    requires write < U32 && read < U32
    ensures WrapSub(Next(write), Next(read), U32) == WrapSub(write, read, U32)
  {
  }

  /** Dropping to `mask` before a full ring's write position is advancing by one. */
  lemma DropOne(mask: nat, write: nat, read: nat)
    requires write < U32 && read < U32 && mask + 1 < U32 && WrapSub(write, read, U32) == mask + 1
    ensures WrapSub(write, mask, U32) == Next(read)
    ensures (Next(read) + mask) % U32 == write
  {
  }

  lemma CellAtEnd(mask: nat, write: nat, c: nat, n: nat)
    requires write < U32 && (c + n) % U32 == write
    ensures Cell(mask, c + n) == Cell(mask, write)
  {
    hide And;
  }

  /** What the writes of a put do to the window. */
  lemma AppendWindow(b: seq<byte>, mask: nat, write: nat, read: nat, x: byte)
    requires write < U32 && read < U32 && mask + 1 < U32 && IsPow2(mask + 1) && mask < |b|
    requires WrapSub(write, read, U32) <= mask + 1
    ensures var n := WrapSub(write, read, U32);
      var read' := if n > mask then WrapSub(write, mask, U32) else read;
      var n' := WrapSub(Next(write), read', U32);
      && n' <= mask + 1
      && Window(b[And(write, mask) := x], mask, read', n') == Put(mask + 1, Window(b, mask, read, n), x)
  {
    hide Window, Cell, IsPow2, And, WrapSub, Next;
    var n := WrapSub(write, read, U32);
    CellOf(mask, write);
    if n > mask {
      DropOne(mask, write, read);
      CountBoth(write, read);
      AppendFull(b, mask, write, read, x);
    } else {
      CountUp(write, read);
      WrapBack(write, read);
      CellAtEnd(mask, write, read, n);
      WindowExtend(b, mask, read, n, x);
    }
  }

  lemma AppendFull(b: seq<byte>, mask: nat, write: nat, read: nat, x: byte)
    requires write < U32 && mask + 1 < U32 && IsPow2(mask + 1) && mask < |b| && (Next(read) + mask) % U32 == write
    ensures Cell(mask, write) < |b|
    ensures Window(b[Cell(mask, write) := x], mask, Next(read), mask + 1)
      == Put(mask + 1, Window(b, mask, read, mask + 1), x)
  {
    hide Cell, IsPow2, Next;
    CellAtEnd(mask, write, Next(read), mask);
    WindowTail(b, mask, read, mask + 1);
    WindowExtend(b, mask, Next(read), mask, x);
  }

  class RingBuffer {
    var buf: array<byte>
    var mask: nat
    var read: nat
    var write: nat

    constructor ()
      ensures fresh(this)
    {
      buf, mask, read, write := new byte[0], 0, 0, 0;
    }

    ghost predicate Valid()
      reads this
    {
      && read < U32 && write < U32
      && mask + 1 < U32 && IsPow2(mask + 1) && mask + 1 <= buf.Length
      && WrapSub(write, read, U32) <= mask + 1
    }

    ghost function Capacity(): nat
      reads this
    {
      mask + 1
    }

    ghost function Contents(): (q: seq<byte>)
      requires Valid()
      reads this, buf
      ensures |q| <= Capacity()
    {
      Window(buf[..], mask, read, WrapSub(write, read, U32))
    }

    /** Accepts zero and the powers of two.  A size of zero leaves the mask at 2^32 - 1, so only a
        power of two makes a queue. */
    method Init(b: array<byte>, size: nat) returns (rc: int)
      requires size < U32 && size <= b.Length
      modifies this
      ensures rc == if size == 0 || IsPow2(size) then 0 else -1
      ensures rc == -1 ==> unchanged(this)
      ensures rc == 0 && size != 0 ==> Valid() && Capacity() == size && buf == b && Contents() == []
      ensures rc == 0 && size == 0 ==> mask == U32 - 1
    {
      if size > 0 { PowerOfTwoTest(size); }
      if And(size, WrapSub(size, 1, U32)) != 0 { return -1; }
      mask := WrapSub(size, 1, U32);
      read := 0;
      write := read;
      buf := b;
      rc := 0;
    }

    /** Takes the oldest byte; on an empty queue the caller's byte is left as it was. */
    method Get(data: byte) returns (rc: int, out: byte)
      requires Valid()
      modifies this`read
      ensures Valid() && rc == 0
      ensures Contents() == Apply(Capacity(), old(Contents()), GetOp)
      ensures out == if old(Contents()) == [] then data else old(Contents())[0]
    {
      hide Window, IsPow2, And, Cell, Next;
      out := data;
      if write != read {
        CellOf(mask, read);
        WindowTail(buf[..], mask, read, WrapSub(write, read, U32));
        CountsDown(write, read);
        out := buf[And(read, mask)];
        read := Next(read);
      }
      rc := 0;
    }

    /** Appends, dropping the oldest byte of a full queue. */
    method Append(data: byte) returns (rc: int)
      requires Valid()
      modifies this, buf
      ensures Valid() && rc == 0 && buf == old(buf) && Capacity() == old(Capacity())
      ensures Contents() == Apply(Capacity(), old(Contents()), PutOp(data))
    {
      hide Window, Cell, IsPow2, And, WrapSub, Put, Next;
      CellOf(mask, write);
      ghost var b := buf[..];
      AppendWindow(b, mask, write, read, data);
      buf[And(write, mask)] := data;
      assert buf[..] == b[And(write, mask) := data];
      if WrapSub(write, read, U32) > mask { read := WrapSub(write, mask, U32); }
      write := Next(write);
      rc := 0;
    }

    method Num() returns (n: nat)
      requires Valid()
      ensures n == |Contents()|
    {
      n := WrapSub(write, read, U32);
    }

    method Flush() returns (rc: nat)
      requires Valid()
      modifies this`read
      ensures Valid() && rc == 0 && Contents() == Apply(Capacity(), old(Contents()), FlushOp)
    {
      read := write;
      rc := 0;
    }
  }
}

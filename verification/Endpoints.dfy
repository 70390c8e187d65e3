/** RPMsg endpoints: registration, addresses, reference counts.  An endpoint is named by the address of
    its structure; `alive` is false before its first registration and after its release.  Each locked
    region of rpmsg.c is one step. */
module Endpoints {
  import opened Bits
  import opened BitMaps

  const ADDR_ANY: nat := 0xFFFF_FFFF
  const RESERVED: nat := 1024
  const BMP_SIZE: nat := 128
  const NAME_SIZE: nat := 32
  const ERR_PARAM: int := -2003
  const ERR_ADDR: int := -2007

  datatype Ept = Ept(name: string, addr: nat, dest: nat, refcnt: nat, alive: bool)

  datatype Table = Table(list: seq<nat>, epts: map<nat, Ept>, bits: seq<bool>, bitnext: nat)

  predicate InMap(addr: nat) { RESERVED <= addr < RESERVED + BMP_SIZE }

  function Trunc(name: string): string {
    if |name| > NAME_SIZE then name[..NAME_SIZE] else name
  }

  // What the code does.

  datatype Reserved = Reserved(t: Table, addr: nat, status: int)

  /** Choose or check the local address. */
  function Reserve(t: Table, src: nat): Reserved
    requires |t.bits| == BMP_SIZE
  {
    if src == ADDR_ANY then
      var b := NextClear(t.bits, t.bitnext);
      Reserved(t.(bits := t.bits[b := true], bitnext := (RESERVED + b + 1) % BMP_SIZE), RESERVED + b, 0)
    else if src < RESERVED then Reserved(t, src, 0)
    else if !InMap(src) then Reserved(t, src, ERR_PARAM)
    else if t.bits[src - RESERVED] then Reserved(t, src, ERR_ADDR)
    else Reserved(t.(bits := t.bits[src - RESERVED := true]), src, 0)
  }

  function Registered(t: Table, e: nat, name: string, addr: nat, dest: nat): Table {
    t.(epts := t.epts[e := Ept(Trunc(name), addr, dest, 1, true)], list := t.list + [e])
  }

  function CreateStep(t: Table, e: nat, name: string, src: nat, dest: nat): (Table, int)
    requires |t.bits| == BMP_SIZE
  {
    var r := Reserve(t, src);
    if r.status != 0 then (t, r.status) else (Registered(r.t, e, name, r.addr, dest), 0)
  }

  function IncrefStep(t: Table, e: nat): Table
    requires e in t.epts
  {
    t.(epts := t.epts[e := t.epts[e].(refcnt := (t.epts[e].refcnt + 1) % U32)])
  }

  /** The last reference releases the endpoint. */
  function DecrefStep(t: Table, e: nat): Table
    requires e in t.epts
  {
    var n := WrapSub(t.epts[e].refcnt, 1, U32);
    t.(epts := t.epts[e := t.epts[e].(refcnt := n, alive := t.epts[e].alive && n != 0)])
  }

  function Unlisted(list: seq<nat>, e: nat): seq<nat> {
    if list == [] then [] else (if list[0] == e then [] else [list[0]]) + Unlisted(list[1..], e)
  }

  function UnregisterStep(t: Table, e: nat): Table
    requires e in t.epts && |t.bits| == BMP_SIZE
  {
    var addr := t.epts[e].addr;
    var bits := if InMap(addr) then t.bits[addr - RESERVED := false] else t.bits;
    DecrefStep(t.(bits := bits, list := Unlisted(t.list, e)), e)
  }

  // Runs: creation, the entry and exit of callbacks (receive or name service), destruction.

  datatype EptAction =
    | Create(e: nat, name: string, src: nat, dest: nat)
    | Enter(e: nat)
    | Leave(e: nat)
    | Destroy(e: nat)

  /** Ghost state: callbacks running, and how often an endpoint has been registered and released. */
  datatype Account = Account(running: map<nat, nat>, born: map<nat, nat>, freed: map<nat, nat>)

  function At(m: map<nat, nat>, e: nat): nat {
    if e in m then m[e] else 0
  }

  ghost predicate Alive(t: Table, e: nat) {
    e in t.epts && t.epts[e].alive
  }

  ghost predicate SomeClear(bits: seq<bool>) {
    exists b :: 0 <= b < |bits| && !bits[b]
  }

  /** Only structures not in use are registered, callbacks are entered on listed endpoints, and what is
      registered is destroyed once. */
  ghost predicate EptAllowed(t: Table, g: Account, a: EptAction) {
    match a
    case Create(e, _, src, _) => !Alive(t, e) && (src == ADDR_ANY ==> SomeClear(t.bits))
    case Enter(e) => e in t.list && Alive(t, e) && t.epts[e].refcnt + 1 < U32
    case Leave(e) => At(g.running, e) > 0
    case Destroy(e) => e in t.list
  }

  ghost predicate EptDefined(t: Table, a: EptAction) {
    |t.bits| == BMP_SIZE && (a.Create? || a.e in t.epts)
  }

  ghost function EptStep(t: Table, a: EptAction): Table
    requires EptDefined(t, a)
  {
    match a
    case Create(e, name, src, dest) => CreateStep(t, e, name, src, dest).0
    case Enter(e) => IncrefStep(t, e)
    case Leave(e) => DecrefStep(t, e)
    case Destroy(e) => UnregisterStep(t, e)
  }

  ghost function EptAccount(t: Table, g: Account, a: EptAction): Account
    requires EptDefined(t, a)
  {
    var t' := EptStep(t, a);
    var g1 := if Alive(t, a.e) && !Alive(t', a.e) then g.(freed := g.freed[a.e := At(g.freed, a.e) + 1]) else g;
    match a
    case Create(e, _, _, _) => if Alive(t', e) then g1.(born := g.born[e := At(g.born, e) + 1]) else g1
    case Enter(e) => g1.(running := g.running[e := At(g.running, e) + 1])
    case Leave(e) => g1.(running := g.running[e := if At(g.running, e) > 0 then At(g.running, e) - 1 else 0])
    case Destroy(e) => g1
  }

  // The invariant.

  ghost predicate ListOk(t: Table) {
    && (forall i :: 0 <= i < |t.list| ==> Alive(t, t.list[i]))
    && ListDistinct(t.list)
  }

  ghost predicate ListDistinct(list: seq<nat>) {
    forall i, j :: 0 <= i < j < |list| ==> list[i] != list[j]
  }

  ghost predicate Counted(t: Table, g: Account, e: nat) {
    && (if Alive(t, e) then
          1 <= t.epts[e].refcnt < U32 && t.epts[e].refcnt == At(g.running, e) + (if e in t.list then 1 else 0)
        else At(g.running, e) == 0)
    && At(g.born, e) == At(g.freed, e) + (if Alive(t, e) then 1 else 0)
  }

  ghost predicate HasAddr(t: Table, i: nat, addr: nat) {
    i < |t.list| && t.list[i] in t.epts && t.epts[t.list[i]].addr == addr
  }

  ghost predicate InUse(t: Table, addr: nat) {
    exists i: nat :: HasAddr(t, i, addr)
  }

  /** Bit b is set exactly when one listed endpoint has address RESERVED + b. */
  ghost predicate AddrsOk(t: Table) {
    && |t.bits| == BMP_SIZE
    && (forall b :: 0 <= b < BMP_SIZE ==> (t.bits[b] <==> InUse(t, RESERVED + b)))
    && (forall i: nat, j: nat, addr: nat :: HasAddr(t, i, addr) && HasAddr(t, j, addr) && addr >= RESERVED ==> i == j)
    && (forall i: nat, addr: nat :: HasAddr(t, i, addr) ==> addr < RESERVED + BMP_SIZE)
  }

  ghost predicate EptInv(t: Table, g: Account) {
    ListOk(t) && AddrsOk(t) && forall e: nat :: Counted(t, g, e)
  }

  // Steps.

  ghost predicate EptKeeps(t: Table, g: Account, a: EptAction) {
    EptDefined(t, a) && EptInv(EptStep(t, a), EptAccount(t, g, a))
  }

  lemma AddrsFrame(t: Table, t': Table)
    requires AddrsOk(t) && t'.bits == t.bits && t'.list == t.list
    requires forall i :: 0 <= i < |t.list| ==> (t.list[i] in t.epts <==> t.list[i] in t'.epts)
    requires forall i :: 0 <= i < |t.list| && t.list[i] in t.epts ==> t'.epts[t.list[i]].addr == t.epts[t.list[i]].addr
    ensures AddrsOk(t')
  {
    forall i: nat, addr: nat ensures HasAddr(t', i, addr) <==> HasAddr(t, i, addr) {
    }
    forall addr: nat ensures InUse(t', addr) <==> InUse(t, addr) {
      if i: nat :| HasAddr(t, i, addr) { assert HasAddr(t', i, addr); }
    }
    hide HasAddr, InUse;
  }

  /** What a successful reservation gives: an unused address whose bit is now set. */
  lemma ReserveOk(t: Table, src: nat)
    requires AddrsOk(t) && (src == ADDR_ANY ==> SomeClear(t.bits))
    ensures var r := Reserve(t, src);
      && r.t.list == t.list && r.t.epts == t.epts && |r.t.bits| == BMP_SIZE
      && (r.status == 0 ==>
        && r.addr < RESERVED + BMP_SIZE
        && (r.addr >= RESERVED ==> !InUse(t, r.addr))
        && forall b :: 0 <= b < BMP_SIZE ==> (r.t.bits[b] <==> t.bits[b] || RESERVED + b == r.addr))
  {
    hide InUse, HasAddr;
    if src == ADDR_ANY { NextClearExact(t.bits, t.bitnext); }
  }

  /** The new endpoint is the last of the list. */
  lemma RegisteredAddrs(t: Table, t1: Table, e: nat, name: string, addr: nat, dest: nat, i: nat, x: nat)
    requires t1.list == t.list && t1.epts == t.epts && e !in t.list
    ensures HasAddr(Registered(t1, e, name, addr, dest), i, x) <==> HasAddr(t, i, x) || (i == |t.list| && x == addr)
  {
  }

  lemma RegisterKeepsAddrs(t: Table, t1: Table, e: nat, name: string, addr: nat, dest: nat)
    requires AddrsOk(t) && t1.list == t.list && t1.epts == t.epts && e !in t.list && |t1.bits| == BMP_SIZE
    requires addr < RESERVED + BMP_SIZE && (addr >= RESERVED ==> !InUse(t, addr))
    requires forall b :: 0 <= b < BMP_SIZE ==> (t1.bits[b] <==> t.bits[b] || RESERVED + b == addr)
    ensures AddrsOk(Registered(t1, e, name, addr, dest))
  {
    var t' := Registered(t1, e, name, addr, dest);
    forall i: nat, x: nat ensures HasAddr(t', i, x) <==> HasAddr(t, i, x) || (i == |t.list| && x == addr) {
      RegisteredAddrs(t, t1, e, name, addr, dest, i, x);
    }
    forall x: nat ensures InUse(t', x) <==> InUse(t, x) || x == addr {
      if i: nat :| HasAddr(t, i, x) { assert HasAddr(t', i, x); }
      if x == addr { assert HasAddr(t', |t.list|, x); }
    }
    forall i: nat, x: nat | HasAddr(t, i, x) ensures i < |t.list| && InUse(t, x) {
    }
    hide HasAddr, Registered;
  }

  lemma CreateKeeps(t: Table, g: Account, e: nat, name: string, src: nat, dest: nat)
    requires EptInv(t, g) && EptAllowed(t, g, Create(e, name, src, dest))
    ensures EptKeeps(t, g, Create(e, name, src, dest))
  {
    hide AddrsOk, SomeClear, Reserve;
    AddrsSized(t);
    ReserveOk(t, src);
    var r := Reserve(t, src);
    if r.status == 0 { RegisterKeepsAddrs(t, r.t, e, name, r.addr, dest); }
    var a := Create(e, name, src, dest);
    var t', g' := EptStep(t, a), EptAccount(t, g, a);
    forall x: nat ensures Counted(t', g', x) { assert Counted(t, g, x); }
  }

  // What a creation does, told from outside.

  /** When a request for an address is granted: an automatic one always, a fixed one below the map without
      a check, one in the map exactly when no endpoint has it; above the map it is an error. */
  lemma CreateStatus(t: Table, e: nat, name: string, src: nat, dest: nat)
    requires AddrsOk(t)
    ensures |t.bits| == BMP_SIZE
    ensures var (t', status) := CreateStep(t, e, name, src, dest);
      && (status == 0 <==> src == ADDR_ANY || src < 1024 || (src < 1152 && !InUse(t, src)))
      && (status == -2003 <==> 1152 <= src && src != ADDR_ANY)
      && (status == -2007 <==> 1024 <= src < 1152 && InUse(t, src))
      && (status != 0 ==> t' == t)
  {
    hide HasAddr, InUse;
    if InMap(src) { assert t.bits[src - RESERVED] <==> InUse(t, RESERVED + (src - RESERVED)); }
  }

  /** The first 32 characters of a name. */
  predicate NameStored(stored: string, name: string) {
    stored <= name && |stored| == if |name| < 32 then |name| else 32
  }

  /** What a granted creation registers: behind the others, with the name, the remote address and the local
      address asked for (or one of the map that was unused), one reference; no other endpoint changes. */
  lemma CreateRegisters(t: Table, e: nat, name: string, src: nat, dest: nat)
    requires AddrsOk(t) && CreateStep(t, e, name, src, dest).1 == 0 && (src == ADDR_ANY ==> SomeClear(t.bits))
    ensures |t.bits| == BMP_SIZE
    ensures var t' := CreateStep(t, e, name, src, dest).0;
      && t'.list == t.list + [e] && e in t'.epts
      && (var ept := t'.epts[e];
          && ept.alive && ept.refcnt == 1 && ept.dest == dest && NameStored(ept.name, name)
          && (if src == ADDR_ANY then 1024 <= ept.addr < 1152 && !InUse(t, ept.addr) else ept.addr == src))
      && (forall x: nat :: x != e ==> (x in t'.epts <==> x in t.epts) && (x in t.epts ==> t'.epts[x] == t.epts[x]))
  {
    hide AddrsOk, InUse, SomeClear;
    AddrsSized(t);
    ReserveOk(t, src);
  }

  /** An address that was chosen and is free again is the last to be chosen: the next automatic creation
      takes it exactly when no other address of the map is free. */
  lemma FreedLast(t: Table)
    requires |t.bits| == BMP_SIZE && SomeClear(t.bits)
    ensures var r := Reserve(t, ADDR_ANY);
      var b := r.addr - RESERVED;
      && 0 <= b < BMP_SIZE && !t.bits[b] && |r.t.bits| == BMP_SIZE
      && (Reserve(r.t.(bits := r.t.bits[b := false]), ADDR_ANY).addr == r.addr <==>
          forall c :: 0 <= c < BMP_SIZE && c != b ==> t.bits[c])
  {
    hide StepsToClear;
    var r := Reserve(t, ADDR_ANY);
    var b := r.addr - RESERVED;
    NextClearExact(t.bits, t.bitnext);
    assert r.t.bits[b := false] == t.bits;
    var start := r.t.bitnext;
    NextClearExact(t.bits, start);
    assert start == (b + 1) % BMP_SIZE;
    var k := StepsToClear(t.bits, start, 0);
    if c :| 0 <= c < BMP_SIZE && c != b && !t.bits[c] {
      var i := Turn(start, c, BMP_SIZE);
      assert ClearAt(t.bits, start, i);
      assert k <= i;
    }
  }

  lemma AddrsSized(t: Table)
    requires AddrsOk(t)
    ensures |t.bits| == BMP_SIZE
  {
  }

  lemma EnterKeeps(t: Table, g: Account, e: nat)
    requires EptInv(t, g) && EptAllowed(t, g, Enter(e))
    ensures EptKeeps(t, g, Enter(e))
  {
    hide AddrsOk;
    AddrsSized(t);
    var t', g' := EptStep(t, Enter(e)), EptAccount(t, g, Enter(e));
    AddrsFrame(t, t');
    forall x: nat ensures Counted(t', g', x) { assert Counted(t, g, x); }
  }

  lemma LeaveKeeps(t: Table, g: Account, e: nat)
    requires EptInv(t, g) && EptAllowed(t, g, Leave(e))
    ensures EptKeeps(t, g, Leave(e))
  {
    hide AddrsOk;
    AddrsSized(t);
    assert Counted(t, g, e);
    var t', g' := EptStep(t, Leave(e)), EptAccount(t, g, Leave(e));
    AddrsFrame(t, t');
    forall x: nat ensures Counted(t', g', x) { assert Counted(t, g, x); }
  }

  lemma {:induction false} UnlistedNone(list: seq<nat>, e: nat)
    requires e !in list
    ensures Unlisted(list, e) == list
  {
    if list != [] { UnlistedNone(list[1..], e); }
  }

  lemma {:induction false} UnlistedAt(list: seq<nat>, e: nat, p: nat)
    requires p < |list| && list[p] == e && ListDistinct(list)
    ensures Unlisted(list, e) == list[..p] + list[p + 1..]
  {
    if p == 0 {
      UnlistedNone(list[1..], e);
    } else {
      UnlistedAt(list[1..], e, p - 1);
      assert list[..p] + list[p + 1..] == [list[0]] + (list[1..][..p - 1] + list[1..][p..]);
    }
  }

  function Later(p: nat, i: nat): nat { if i < p then i else i + 1 }

  /** Removing entry p renumbers the others. */
  lemma UnlistedAddrs(t: Table, t': Table, e: nat, p: nat, i: nat, x: nat)
    requires p < |t.list| && t'.list == t.list[..p] + t.list[p + 1..]
    requires forall y: nat :: y in t'.epts <==> y in t.epts
    requires forall y: nat :: y in t.epts ==> t'.epts[y].addr == t.epts[y].addr
    ensures HasAddr(t', i, x) <==> HasAddr(t, Later(p, i), x)
  {
  }

  lemma UnlistedKeepsAddrs(t: Table, t': Table, e: nat, p: nat)
    requires AddrsOk(t) && p < |t.list| && t.list[p] == e && e in t.epts
    requires t'.list == t.list[..p] + t.list[p + 1..]
    requires forall y: nat :: y in t'.epts <==> y in t.epts
    requires forall y: nat :: y in t.epts ==> t'.epts[y].addr == t.epts[y].addr
    requires var addr := t.epts[e].addr; t'.bits == if InMap(addr) then t.bits[addr - RESERVED := false] else t.bits
    ensures AddrsOk(t')
  {
    var addr := t.epts[e].addr;
    forall i: nat, x: nat ensures HasAddr(t', i, x) <==> HasAddr(t, Later(p, i), x) {
      UnlistedAddrs(t, t', e, p, i, x);
    }
    assert HasAddr(t, p, addr);
    forall x: nat ensures InUse(t', x) ==> InUse(t, x) && (x == addr ==> addr < RESERVED) {
      if i: nat :| HasAddr(t', i, x) { assert HasAddr(t, Later(p, i), x); }
    }
    forall x: nat ensures x != addr && InUse(t, x) ==> InUse(t', x) {
      if i: nat :| HasAddr(t, i, x) {
        if x != addr { StillThere(t, t', e, p, i, x); }
      }
    }
    hide HasAddr;
  }

  lemma StillThere(t: Table, t': Table, e: nat, p: nat, i: nat, x: nat)
    requires p < |t.list| && t.list[p] == e && e in t.epts && HasAddr(t, i, x) && x != t.epts[e].addr
    requires forall j: nat :: HasAddr(t', j, x) <==> HasAddr(t, Later(p, j), x)
    ensures InUse(t', x)
  {
    assert Later(p, if i < p then i else i - 1) == i;
  }

  lemma {:induction false} UnlistedMember(list: seq<nat>, e: nat, x: nat)
    ensures x in Unlisted(list, e) <==> x in list && x != e
  {
    if list != [] { UnlistedMember(list[1..], e, x); }
  }

  lemma UnregisterEffect(t: Table, e: nat)
    requires e in t.epts && |t.bits| == BMP_SIZE && ListOk(t) && AddrsOk(t) && e in t.list
    ensures var t' := UnregisterStep(t, e);
      && ListDistinct(t'.list) && (forall x: nat :: x in t'.list <==> x in t.list && x != e) &&
        |t'.list| == |t.list| - 1
      && AddrsOk(t')
      && t'.epts == DecrefStep(t, e).epts
  {
    hide AddrsOk, ListDistinct, Unlisted, Alive;
    var p :| 0 <= p < |t.list| && t.list[p] == e;
    UnlistedAt(t.list, e, p);
    CutDistinct(t.list, p);
    var t' := UnregisterStep(t, e);
    forall x: nat ensures x in t'.list <==> x in t.list && x != e { UnlistedMember(t.list, e, x); }
    UnlistedKeepsAddrs(t, t', e, p);
  }

  lemma CutDistinct(list: seq<nat>, p: nat)
    requires p < |list| && ListDistinct(list)
    ensures ListDistinct(list[..p] + list[p + 1..])
  {
    var s := list[..p] + list[p + 1..];
    forall i, j | 0 <= i < j < |s| ensures s[i] != s[j] {
      assert s[i] == list[Later(p, i)] && s[j] == list[Later(p, j)];
    }
  }

  lemma DestroyKeeps(t: Table, g: Account, e: nat)
    requires EptInv(t, g) && EptAllowed(t, g, Destroy(e))
    ensures EptKeeps(t, g, Destroy(e))
  {
    hide AddrsOk, UnregisterStep;
    AddrsSized(t);
    assert Counted(t, g, e);
    UnregisterEffect(t, e);
    var t', g' := EptStep(t, Destroy(e)), EptAccount(t, g, Destroy(e));
    forall i | 0 <= i < |t'.list| ensures Alive(t', t'.list[i]) { assert t'.list[i] in t'.list; }
    forall x: nat ensures Counted(t', g', x) { assert Counted(t, g, x); }
  }

  lemma EptStepKeeps(t: Table, g: Account, a: EptAction)
    requires EptInv(t, g) && EptAllowed(t, g, a)
    ensures EptKeeps(t, g, a)
  {
    hide EptInv, EptKeeps;
    match a
    case Create(e, name, src, dest) => CreateKeeps(t, g, e, name, src, dest);
    case Enter(e) => EnterKeeps(t, g, e);
    case Leave(e) => LeaveKeeps(t, g, e);
    case Destroy(e) => DestroyKeeps(t, g, e);
  }

  // Runs.

  datatype EptOutcome = EptRan(t: Table, g: Account) | EptForbidden | EptStuck

  function EmptyTable(): Table {
    Table([], map[], seq(BMP_SIZE, _ => false), 0)
  }

  ghost function EptExecute(acts: seq<EptAction>): EptOutcome {
    if acts == [] then EptRan(EmptyTable(), Account(map[], map[], map[]))
    else
      var a := acts[|acts| - 1];
      match EptExecute(acts[..|acts| - 1])
      case EptRan(t, g) =>
        if !EptAllowed(t, g, a) then EptForbidden
        else if !EptDefined(t, a) then EptStuck
        else EptRan(EptStep(t, a), EptAccount(t, g, a))
      case other => other
  }

  /** In every run: bit b is set exactly when one registered endpoint has address 1024 + b, reference
      counts are exact, and no step is taken on a structure that was never registered. */
  lemma {:induction false} EptRuns(acts: seq<EptAction>)
    ensures var o := EptExecute(acts); !o.EptStuck? && (o.EptRan? ==> EptInv(o.t, o.g))
  {
    hide EptInv, EptAllowed, EptDefined, EptStep, EptAccount;
    if acts == [] {
      EptStarts();
    } else {
      EptRuns(acts[..|acts| - 1]);
      var o := EptExecute(acts[..|acts| - 1]);
      if o.EptRan? && EptAllowed(o.t, o.g, acts[|acts| - 1]) { EptStepKeeps(o.t, o.g, acts[|acts| - 1]); }
    }
  }

  lemma EptStarts()
    ensures EptInv(EmptyTable(), Account(map[], map[], map[]))
  {
    forall addr: nat ensures !InUse(EmptyTable(), addr) {
    }
  }

  /** An endpoint is released only when it is unlisted and no callback runs on it, once for each time
      it was registered. */
  lemma ReleasedOnce(t: Table, g: Account, a: EptAction, e: nat)
    requires EptInv(t, g) && EptAllowed(t, g, a)
    ensures EptKeeps(t, g, a)
    ensures var t', g' := EptStep(t, a), EptAccount(t, g, a);
      && (At(g'.freed, e) != At(g.freed, e) ==>
        && At(g'.freed, e) == At(g.freed, e) + 1 && Alive(t, e) && !Alive(t', e)
        && e !in t'.list && At(g'.running, e) == 0)
      && At(g'.freed, e) <= At(g'.born, e) <= At(g'.freed, e) + 1
  {
    EptStepKeeps(t, g, a);
    hide AddrsOk, EptStep;
    var t', g' := EptStep(t, a), EptAccount(t, g, a);
    assert Counted(t', g', e);
    if e in t'.list { var i :| 0 <= i < |t'.list| && t'.list[i] == e; assert Alive(t', t'.list[i]); }
  }

  /** Choosing an address automatically keeps addresses unique exactly when the map is not full. */
  lemma FullMapRepeats(t: Table, g: Account, e: nat, name: string, dest: nat)
    requires EptInv(t, g) && !Alive(t, e)
    ensures |t.bits| == BMP_SIZE
    ensures AddrsOk(CreateStep(t, e, name, ADDR_ANY, dest).0) <==> SomeClear(t.bits)
  {
    AddrsSized(t);
    var a := Create(e, name, ADDR_ANY, dest);
    if SomeClear(t.bits) {
      CreateKeeps(t, g, e, name, ADDR_ANY, dest);
    } else {
      NextClearExact(t.bits, t.bitnext);
      var b := NextClear(t.bits, t.bitnext);
      var t' := CreateStep(t, e, name, ADDR_ANY, dest).0;
      assert t.bits[b];
      var i: nat :| HasAddr(t, i, RESERVED + b);
      assert e !in t.list;
      assert HasAddr(t', i, RESERVED + b) && HasAddr(t', |t.list|, RESERVED + b);
    }
  }

  /** k endpoints created one after the other, each with an address chosen for it. */
  function Creations(k: nat): seq<EptAction> {
    if k == 0 then [] else Creations(k - 1) + [Create(k - 1, "", ADDR_ANY, 0)]
  }

  ghost predicate Filled(t: Table, k: nat) {
    && |t.bits| == BMP_SIZE && t.bitnext == k % BMP_SIZE
    && (forall b :: 0 <= b < BMP_SIZE ==> (t.bits[b] <==> b < k))
    && (forall e: nat :: e >= k ==> e !in t.epts)
  }

  /** The k-th creation takes the k-th bit. */
  lemma FillsNext(t: Table, k: nat)
    requires Filled(t, k) && k < BMP_SIZE
    ensures Filled(CreateStep(t, k, "", ADDR_ANY, 0).0, k + 1) && SomeClear(t.bits)
  {
    assert !t.bits[k];
    assert ClearAt(t.bits, k, 0);
    assert NextClear(t.bits, k) == k;
  }

  /** The run that fills the map is allowed, so the full map is reached; one creation more, and two
      endpoints have the same address. */
  lemma {:induction false} CreationsFill(k: nat)
    requires k <= BMP_SIZE
    ensures var o := EptExecute(Creations(k)); o.EptRan? && EptInv(o.t, o.g) && Filled(o.t, k)
  {
    hide EptInv, Filled, EptStep, EptAccount, CreateStep, EptExecute, EptAllowed, EptDefined, SomeClear;
    EptRuns(Creations(k));
    if k == 0 {
      StartsEmpty();
    } else {
      CreationsFill(k - 1);
      var o := EptExecute(Creations(k - 1));
      assert Creations(k)[..k - 1] == Creations(k - 1) by { CreationsCount(k - 1); }
      CreationsCount(k);
      FillsNext(o.t, k - 1);
      NextCreation(o.t, o.g, k - 1);
      ExecuteLast(Creations(k));
    }
  }

  lemma ExecuteLast(acts: seq<EptAction>)
    requires acts != [] && EptExecute(acts[..|acts| - 1]).EptRan?
    requires var o := EptExecute(acts[..|acts| - 1]);
      EptAllowed(o.t, o.g, acts[|acts| - 1]) && EptDefined(o.t, acts[|acts| - 1])
    ensures EptExecute(acts).EptRan? &&
      EptExecute(acts).t == EptStep(EptExecute(acts[..|acts| - 1]).t, acts[|acts| - 1])
  {
    hide EptAllowed, EptDefined, EptStep, EptAccount;
  }

  lemma StartsEmpty()
    ensures Filled(EmptyTable(), 0) && EptExecute([]) == EptRan(EmptyTable(), Account(map[], map[], map[]))
  {
  }

  lemma {:induction false} CreationsCount(k: nat)
    ensures |Creations(k)| == k
  {
    if k > 0 { CreationsCount(k - 1); }
  }

  lemma NextCreation(t: Table, g: Account, k: nat)
    requires Filled(t, k) && SomeClear(t.bits)
    ensures var a := Create(k, "", ADDR_ANY, 0);
      EptAllowed(t, g, a) && EptDefined(t, a) && EptStep(t, a) == CreateStep(t, k, "", ADDR_ANY, 0).0
  {
  }

  /** After 128 automatic creations the next one repeats an address. */
  lemma FullMapIsReached()
    ensures var o := EptExecute(Creations(BMP_SIZE));
      && o.EptRan? && |o.t.bits| == BMP_SIZE && !SomeClear(o.t.bits)
      && !AddrsOk(CreateStep(o.t, BMP_SIZE, "", ADDR_ANY, 0).0)
  {
    CreationsFill(BMP_SIZE);
    var o := EptExecute(Creations(BMP_SIZE));
    hide AddrsOk, CreateStep, EptExecute, EptInv;
    FullMapRepeats(o.t, o.g, BMP_SIZE, "", 0);
  }
}

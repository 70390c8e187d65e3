/** rpmsg.c as it changes the device: the endpoint list, the endpoint structures, the address bitmap. */
module RpmsgEndpoints {
  import opened Bits
  import opened BitMaps
  import opened Endpoints

  datatype Name = NoName | Named(text: string)

  /** By local address; or by name, then by known or still unknown remote address. */
  predicate Matches(ept: Ept, name: Name, addr: nat, dest: nat) {
    || (addr != ADDR_ANY && ept.addr == addr)
    || (&& name.Named? && ept.name == Trunc(name.text)
        && ((dest != ADDR_ANY && ept.dest == dest) || (addr == ADDR_ANY && ept.dest == ADDR_ANY)))
  }

  /** A lookup by a dynamic address finds an endpoint exactly when its bit is set, and no other endpoint
      has the address. */
  lemma AddressFindsOne(t: Table, g: Account, addr: nat)
    requires EptInv(t, g) && InMap(addr)
    ensures |t.bits| == BMP_SIZE
    ensures t.bits[addr - RESERVED] <==>
      exists i: nat :: i < |t.list| && t.list[i] in t.epts && Matches(t.epts[t.list[i]], NoName, addr, ADDR_ANY)
    ensures forall i: nat, j: nat ::
      && i < |t.list| && t.list[i] in t.epts && Matches(t.epts[t.list[i]], NoName, addr, ADDR_ANY)
      && j < |t.list| && t.list[j] in t.epts && Matches(t.epts[t.list[j]], NoName, addr, ADDR_ANY)
      ==> i == j
  {
    forall i: nat
      ensures HasAddr(t, i, addr) <==>
        i < |t.list| && t.list[i] in t.epts && Matches(t.epts[t.list[i]], NoName, addr, ADDR_ANY)
    {
    }
    assert t.bits[addr - RESERVED] <==> InUse(t, addr) by { assert RESERVED + (addr - RESERVED) == addr; }
  }

  /** Names are compared by their first 32 characters. */
  lemma TruncIs(name: string)
    ensures NameStored(Trunc(name), name)
  {
  }

  /** What a lookup by name and remote address finds, as for a name-service announcement: an endpoint of
      that name that is bound to this address, or not bound yet. */
  lemma MatchesByName(ept: Ept, name: string, dest: nat)
    requires dest != ADDR_ANY
    ensures Matches(ept, Named(name), ADDR_ANY, dest) <==>
      NameStored(ept.name, name) && (ept.dest == dest || ept.dest == 0xFFFF_FFFF)
  {
    TruncIs(name);
  }

  /** What a lookup by local address finds, as for a received message. */
  lemma MatchesByAddress(ept: Ept, addr: nat)
    requires addr != ADDR_ANY
    ensures Matches(ept, NoName, addr, ADDR_ANY) <==> ept.addr == addr
  {
  }

  /** An endpoint created without a remote address is found by the announcement of a peer of its name, if
      no earlier one matches. */
  lemma CreatedIsFound(t: Table, e: nat, name: string, src: nat, d: nat)
    requires AddrsOk(t) && (src == ADDR_ANY ==> SomeClear(t.bits)) && d != ADDR_ANY
    requires CreateStep(t, e, name, src, ADDR_ANY).1 == 0
    ensures |t.bits| == BMP_SIZE
    ensures var t' := CreateStep(t, e, name, src, ADDR_ANY).0;
      t'.list == t.list + [e] && e in t'.epts && Matches(t'.epts[e], Named(name), ADDR_ANY, d)
  {
    CreateRegisters(t, e, name, src, ADDR_ANY);
    MatchesByName(CreateStep(t, e, name, src, ADDR_ANY).0.epts[e], name, d);
  }

  class RpmsgDevice {
    var list: seq<nat>
    var epts: map<nat, Ept>
    const bitmap: Bitmap
    var bitnext: nat

    ghost predicate Valid()
      reads this, bitmap.words
    {
      bitmap.words.Length == 4 && forall i :: 0 <= i < |list| ==> list[i] in epts
    }

    ghost function View(): Table
      reads this, bitmap.words
    {
      Table(list, epts, bitmap.Bits(), bitnext)
    }

    constructor ()
      ensures Valid() && View() == EmptyTable() && fresh(bitmap.words)
    {
      list, epts, bitnext := [], map[], 0;
      bitmap := new Bitmap(4);
    }

    method GetAddress(start: nat) returns (addr: nat)
      requires Valid()
      modifies bitmap.words
      ensures var b := NextClear(old(bitmap.Bits()), start);
        addr == RESERVED + b && bitmap.Bits() == old(bitmap.Bits())[b := true]
    {
      addr := ADDR_ANY;
      var nextbit := bitmap.NextClearBit(start);
      if nextbit < BMP_SIZE {
        addr := RESERVED + nextbit;
        bitmap.SetBit(nextbit);
      }
    }

    method ReleaseAddress(addr: nat)
      requires Valid()
      modifies bitmap.words
      ensures bitmap.Bits() == if InMap(addr) then old(bitmap.Bits())[addr - RESERVED := false] else old(bitmap.Bits())
    {
      var b: int := addr - RESERVED;
      if 0 <= b < BMP_SIZE { bitmap.ClearBit(b); }
    }

    method IsAddressSet(addr: nat) returns (r: int)
      requires Valid()
      ensures r == if !InMap(addr) then ERR_PARAM else if bitmap.Bits()[addr - RESERVED] then 1 else 0
    {
      var b: int := addr - RESERVED;
      if 0 <= b < BMP_SIZE {
        var taken := bitmap.IsBitSet(b);
        return if taken then 1 else 0;
      }
      r := ERR_PARAM;
    }

    method SetAddress(addr: nat) returns (r: int)
      requires Valid()
      modifies bitmap.words
      ensures r == if InMap(addr) then 0 else ERR_PARAM
      ensures bitmap.Bits() == if InMap(addr) then old(bitmap.Bits())[addr - RESERVED := true] else old(bitmap.Bits())
    {
      var b: int := addr - RESERVED;
      if 0 <= b < BMP_SIZE {
        bitmap.SetBit(b);
        return 0;
      }
      r := ERR_PARAM;
    }

    method EptIncref(e: nat)
      requires e in epts
      modifies this`epts
      ensures View() == IncrefStep(old(View()), e)
    {
      epts := epts[e := epts[e].(refcnt := (epts[e].refcnt + 1) % U32)];
    }

    method EptDecref(e: nat)
      requires e in epts
      modifies this`epts
      ensures View() == DecrefStep(old(View()), e) && epts.Keys == old(epts.Keys)
    {
      epts := epts[e := epts[e].(refcnt := WrapSub(epts[e].refcnt, 1, U32))];
      if epts[e].refcnt == 0 { epts := epts[e := epts[e].(alive := false)]; }
    }

    /** The position of the first listed endpoint that matches, or the length of the list. */
    method GetEndpoint(name: Name, addr: nat, dest: nat) returns (i: nat)
      requires Valid()
      ensures i <= |list|
      ensures i < |list| ==> Matches(epts[list[i]], name, addr, dest)
      ensures forall j :: 0 <= j < i ==> !Matches(epts[list[j]], name, addr, dest)
    {
      i := 0;
      while i < |list|
        invariant i <= |list|
        invariant forall j :: 0 <= j < i ==> !Matches(epts[list[j]], name, addr, dest)
      {
        var ept := epts[list[i]];
        if addr != ADDR_ANY && ept.addr == addr { return; }
        if name.Named? && ept.name == Trunc(name.text) {
          if dest != ADDR_ANY && ept.dest == dest { return; }
          if addr == ADDR_ANY && ept.dest == ADDR_ANY { return; }
        }
        i := i + 1;
      }
    }

    method RegisterEndpoint(e: nat, name: string, src: nat, dest: nat)
      requires Valid()
      modifies this
      ensures Valid() && View() == Registered(old(View()), e, name, src, dest)
    {
      epts := epts[e := Ept(Trunc(name), src, dest, 1, true)];
      list := list + [e];
    }

    /** The locked part of rpmsg_create_ept. */
    method CreateEpt(e: nat, name: string, src: nat, dest: nat) returns (status: int)
      requires Valid()
      modifies this, bitmap.words
      ensures Valid() && (View(), status) == CreateStep(old(View()), e, name, src, dest)
    {
      hide NextClear;
      status := 0;
      var addr := src;
      if src == ADDR_ANY {
        addr := GetAddress(bitnext);
        if addr == ADDR_ANY { return ERR_ADDR; }
        bitnext := (addr + 1) % BMP_SIZE;
      } else if src >= RESERVED {
        status := IsAddressSet(src);
        if status == 0 {
          var r := SetAddress(src);
        } else if status > 0 {
          return ERR_ADDR;
        } else {
          return;
        }
      }
      RegisterEndpoint(e, name, addr, dest);
    }

    method UnregisterEndpoint(e: nat)
      requires Valid() && e in epts
      modifies this, bitmap.words
      ensures Valid() && View() == UnregisterStep(old(View()), e)
    {
      hide Unlisted;
      ghost var was := list;
      if epts[e].addr != ADDR_ANY { ReleaseAddress(epts[e].addr); }
      list := Unlisted(list, e);
      UnlistedKnown(was, e, epts, list);
      EptDecref(e);
    }

    /** The loop of rpmsg_deinit_vdev ends with nothing registered and every address free. */
    method DestroyAll(ghost g: Account) returns (ghost g': Account)
      requires Valid() && EptInv(View(), g)
      modifies this, bitmap.words
      ensures Valid() && EptInv(View(), g') && list == []
      ensures forall b :: 0 <= b < BMP_SIZE ==> !bitmap.Bits()[b]
    {
      g' := g;
      while list != []
        invariant Valid() && EptInv(View(), g')
        decreases |list|
      {
        hide EptInv;
        var e := list[0];
        ghost var t := View();
        FirstListed(t, g');
        EptStepKeeps(t, g', Destroy(e));
        UnregisterEndpoint(e);
        g' := EptAccount(t, g', Destroy(e));
      }
      NoneInUse(View(), g');
    }
  }

  lemma UnlistedKnown(list: seq<nat>, e: nat, epts: map<nat, Ept>, rest: seq<nat>)
    requires rest == Unlisted(list, e) && forall i :: 0 <= i < |list| ==> list[i] in epts
    ensures forall i :: 0 <= i < |rest| ==> rest[i] in epts
  {
    hide Unlisted;
    forall i | 0 <= i < |rest| ensures rest[i] in epts { UnlistedMember(list, e, rest[i]); }
  }

  lemma FirstListed(t: Table, g: Account)
    requires EptInv(t, g) && t.list != []
    ensures EptAllowed(t, g, Destroy(t.list[0])) && t.list[0] in t.epts && |t.bits| == BMP_SIZE
    ensures |UnregisterStep(t, t.list[0]).list| < |t.list|
  {
    assert Alive(t, t.list[0]);
    UnregisterEffect(t, t.list[0]);
  }

  lemma NoneInUse(t: Table, g: Account)
    requires EptInv(t, g) && t.list == []
    ensures |t.bits| == BMP_SIZE && forall b :: 0 <= b < BMP_SIZE ==> !t.bits[b]
  {
  }
}

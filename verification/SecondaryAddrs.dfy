/** Secondary IPv4 addresses of a port: each configured address owns one host entry. */
module SecondaryAddrs {
  import H = Hosts

  type Address = string
  type Addrs = map<Address, H.HostId>
  /** What the live host ids stand for, and who asked for them. */
  type Names = map<H.HostId, H.Holder>

  ghost function NamesOf(table: H.HostTable): (r: Names)
    reads table
  {
    table.holders
  }

  function Mine(me: nat, a: Address): (h: H.Holder) {
    H.Holder(H.Entry(a, false, true), H.Creator(me, a))
  }

  /** The address has a live host entry that port `me` asked for on its behalf. */
  ghost predicate OwnsAt(me: nat, sec: Addrs, names: Names, a: Address) {
    && a in sec && sec[a] in names && names[sec[a]].creator == H.Creator(me, a)
    && names[sec[a]].entry.addr == a && !names[sec[a]].entry.ipv6 && names[sec[a]].entry.isLocal
  }

  ghost predicate Owns(me: nat, sec: Addrs, names: Names) {
    forall a | a in sec :: OwnsAt(me, sec, names, a)
  }

  function IdsOf(sec: Addrs, which: set<Address>): (r: set<H.HostId>) {
    set a | a in sec && a in which :: sec[a]
  }

  lemma {:induction false} OwnersDiffer(me: nat, sec: Addrs, names: Names, a: Address, b: Address)
    requires OwnsAt(me, sec, names, a) && OwnsAt(me, sec, names, b) && a != b
    ensures sec[a] != sec[b]
  {
    assert names[sec[a]].creator.addr == a && names[sec[b]].creator.addr == b;
  }

  /** On top of `sec0` and `names0` there are only new addresses: each has a new host entry of its
      own, but those in `failed`, which have id 0. */
  ghost predicate Grown(me: nat, sec0: Addrs, names0: Names, sec: Addrs, names: Names, failed: set<Address>) {
    && (forall a | a in sec0 :: a in sec && sec[a] == sec0[a])
    && (forall a | a in sec && a !in sec0 ::
          if a in failed then sec[a] == 0 else sec[a] !in names0 && OwnsAt(me, sec, names, a))
    && (forall id | id in names0 :: id in names && names[id] == names0[id])
    && names.Keys == names0.Keys + IdsOf(sec, sec.Keys - sec0.Keys - failed)
    && failed <= sec.Keys - sec0.Keys
  }

  lemma IdsGrow(sec: Addrs, which: set<Address>, a: Address, id: H.HostId)
    requires a !in sec && a !in which
    ensures IdsOf(sec[a := id], which) == IdsOf(sec, which)
    ensures IdsOf(sec[a := id], which + {a}) == IdsOf(sec, which) + {id}
  {
    var t := sec[a := id];
    forall x | x in IdsOf(sec, which) ensures x in IdsOf(t, which) && x in IdsOf(t, which + {a}) {
      var b :| b in sec && b in which && sec[b] == x;
      assert b in t && t[b] == x;
    }
    assert a in t && t[a] == id;
  }

  lemma GrowOne(me: nat, sec0: Addrs, names0: Names, sec: Addrs, names: Names, failed: set<Address>,
                a: Address, id: H.HostId)
    requires Grown(me, sec0, names0, sec, names, failed) && a !in sec && id !in names
    ensures Grown(me, sec0, names0, sec[a := id], names[id := Mine(me, a)], failed)
  {
    hide IdsOf;
    var t, n := sec[a := id], names[id := Mine(me, a)];
    var was := sec.Keys - sec0.Keys - failed;
    IdsGrow(sec, was, a, id);
    assert t.Keys - sec0.Keys - failed == was + {a};
    forall b | b in t && b !in sec0 && b !in failed ensures t[b] !in names0 && OwnsAt(me, t, n, b) {
      assert b != a ==> OwnsAt(me, sec, names, b);
    }
  }

  lemma GrowFailed(me: nat, sec0: Addrs, names0: Names, sec: Addrs, names: Names, failed: set<Address>, a: Address)
    requires Grown(me, sec0, names0, sec, names, failed) && a !in sec
    ensures Grown(me, sec0, names0, sec[a := 0], names, failed + {a})
  {
    hide IdsOf;
    var t := sec[a := 0];
    var was := sec.Keys - sec0.Keys - failed;
    IdsGrow(sec, was, a, 0);
    assert t.Keys - sec0.Keys - (failed + {a}) == was;
    forall b | b in t && b !in sec0 && b !in failed + {a} ensures t[b] !in names0 && OwnsAt(me, t, names, b) {
      assert OwnsAt(me, sec, names, b);
    }
  }

  /** A dropped address holds the id of a host entry that somebody else asked for. */
  ghost predicate Stale(me: nat, sec: Addrs, names: Names, a: Address) {
    a in sec && sec[a] in names && names[sec[a]].creator.port != me
  }

  /** The host entries that others asked for are as they were. */
  ghost predicate OthersKept(me: nat, before: Names, after: Names) {
    forall id | id in before && before[id].creator.port != me :: id in after && after[id] == before[id]
  }

  /** Dropping the addresses `gone` and adding others leaves the host entries of others alone exactly
      when none of the dropped addresses is stale, whatever ids are handed out again. */
  lemma OthersKeptIff(me: nat, sec0: Addrs, names0: Names, gone: set<Address>, sec: Addrs, names: Names,
                      failed: set<Address>)
    requires Grown(me, sec0 - gone, names0 - IdsOf(sec0, gone), sec, names, failed)
    ensures OthersKept(me, names0, names) <==> forall a | a in gone :: !Stale(me, sec0, names0, a)
  {
    if a :| a in gone && Stale(me, sec0, names0, a) {
      var id := sec0[a];
      assert id in IdsOf(sec0, gone);
      NotTheirs(me, sec0 - gone, names0 - IdsOf(sec0, gone), sec, names, failed, id);
    }
  }

  /** An id that is new on top of `names0` belongs to the port. */
  lemma NotTheirs(me: nat, sec0: Addrs, names0: Names, sec: Addrs, names: Names, failed: set<Address>, id: H.HostId)
    requires Grown(me, sec0, names0, sec, names, failed) && id !in names0
    ensures id in names ==> names[id].creator.port == me
  {
    if id in names {
      var a :| a in sec && a in sec.Keys - sec0.Keys - failed && sec[a] == id;
      assert OwnsAt(me, sec, names, a);
    }
  }

  /** An address that owns its entry keeps it when others that own theirs are dropped. */
  lemma OwnersStay(me: nat, sec: Addrs, names: Names, gone: set<Address>)
    requires Owns(me, sec, names)
    ensures Owns(me, sec - gone, names - IdsOf(sec, gone))
  {
    forall a | a in sec - gone ensures OwnsAt(me, sec - gone, names - IdsOf(sec, gone), a) {
      assert OwnsAt(me, sec, names, a);
      forall b | b in sec && b in gone ensures sec[b] != sec[a] { OwnersDiffer(me, sec, names, a, b); }
    }
  }

  lemma OwnersGrow(me: nat, sec0: Addrs, names0: Names, sec: Addrs, names: Names)
    requires Owns(me, sec0, names0) && Grown(me, sec0, names0, sec, names, {})
    ensures Owns(me, sec, names)
  {
    forall a | a in sec ensures OwnsAt(me, sec, names, a) {
      assert a in sec0 ==> OwnsAt(me, sec0, names0, a);
    }
  }

  class Port {
    var secondary: Addrs
    /** Which port this is. */
    const me: nat
    /** Which address strings can be read. */
    const parses: Address -> bool

    constructor (me: nat, parses: Address -> bool)
      ensures secondary == map[] && this.me == me && this.parses == parses
      ensures forall names :: Owns(me, secondary, names)
    {
      this.me, this.parses := me, parses;
      secondary := map[];
    }

    /** Lines 1591-1599: the host entries that go are those whose ids the obsolete addresses hold. */
    method DropObsolete(table: H.HostTable, wanted: set<Address>)
      requires table.Valid()
      modifies this, table
      ensures table.Valid()
      ensures var gone := old(secondary).Keys - wanted;
        && secondary == old(secondary) - gone
        && NamesOf(table) == old(NamesOf(table)) - IdsOf(old(secondary), gone)
    {
      hide H.Inv, H.NextId, H.Names, H.Step, NamesOf;
      ghost var sec0, names0 := secondary, NamesOf(table);
      var todo := secondary.Keys;
      ghost var gone: set<Address> := {};
      assert IdsOf(sec0, {}) == {} && names0 - {} == names0 && secondary - gone == secondary;
      while todo != {}
        invariant table.Valid() && todo <= secondary.Keys && secondary == sec0 - gone
        invariant NamesOf(table) == names0 - IdsOf(sec0, gone)
        invariant gone == sec0.Keys - wanted - todo
        decreases todo
      {
        var a :| a in todo;
        todo := todo - {a};
        if a !in wanted {
          var id := secondary[a];
          secondary := secondary - {a};
          DropHost(table, id);
          assert IdsOf(sec0, gone + {a}) == IdsOf(sec0, gone) + {id};
          assert names0 - (IdsOf(sec0, gone) + {id}) == names0 - IdsOf(sec0, gone) - {id};
          gone := gone + {a};
        }
      }
      assert gone == sec0.Keys - wanted;
    }

    method DropHost(table: H.HostTable, id: H.HostId)
      requires table.Valid()
      modifies table
      ensures table.Valid() && NamesOf(table) == old(NamesOf(table)) - {id}
    {
      hide H.Inv, H.NextId, H.Step, H.Names;
      var _ := table.Delete(id);
    }

    method AddOne(table: H.HostTable, a: Address) returns (ghost ok: bool, ghost id: H.HostId)
      requires table.Valid() && a !in secondary
      modifies this, table
      ensures table.Valid()
      ensures secondary == old(secondary)[a := if ok then id else 0]
      ensures ok ==> id !in old(NamesOf(table)) && NamesOf(table) == old(NamesOf(table))[id := Mine(me, a)]
      ensures !ok ==> NamesOf(table) == old(NamesOf(table))
      ensures (table.reliable && parses(a) ==> ok) && (ok ==> parses(a))
    {
      hide H.Inv, H.NextId, H.Names, H.Step;
      secondary := secondary[a := 0];
      var rc, hostId := table.Add(H.Entry(a, false, true), parses(a), H.Creator(me, a));
      if rc == H.OK {
        secondary := secondary[a := hostId];
      }
      ok, id := rc == H.OK, hostId;
      assert secondary == old(secondary)[a := if ok then id else 0];
    }

    /** Lines 1601-1618. The result of each host add is ignored: an address whose add failed
        keeps the id 0 it was created with. */
    method AddNew(table: H.HostTable, wanted: set<Address>) returns (ghost failed: set<Address>)
      requires table.Valid()
      modifies this, table
      ensures table.Valid() && secondary.Keys == old(secondary).Keys + wanted
      ensures Grown(me, old(secondary), old(NamesOf(table)), secondary, NamesOf(table), failed)
      ensures table.reliable ==> forall a | a in failed :: !parses(a)
      ensures forall a | a in wanted && a !in old(secondary) && !parses(a) :: a in failed
    {
      hide H.Inv, H.NextId, H.Names, Grown, NamesOf;
      ghost var sec0, names0 := secondary, NamesOf(table);
      failed := {};
      GrownStart(me, secondary, names0);
      var todo := wanted;
      while todo != {}
        invariant todo <= wanted && table.Valid()
        invariant secondary.Keys == sec0.Keys + (wanted - todo)
        invariant Grown(me, sec0, names0, secondary, NamesOf(table), failed)
        invariant table.reliable ==> forall a | a in failed :: !parses(a)
        invariant forall a | a in wanted - todo && a !in sec0 && !parses(a) :: a in failed
        decreases todo
      {
        var a :| a in todo;
        todo := todo - {a};
        if a !in secondary {
          ghost var sec, names := secondary, NamesOf(table);
          ghost var ok, id := AddOne(table, a);
          if ok {
            GrowOne(me, sec0, names0, sec, names, failed, a, id);
          } else {
            GrowFailed(me, sec0, names0, sec, names, failed, a);
            failed := failed + {a};
          }
        }
      }
    }

    /** port_config_secondary_ipv4_addr() */
    method Configure(table: H.HostTable, list: seq<Address>) returns (ghost failed: set<Address>)
      requires table.Valid()
      modifies this, table
      ensures table.Valid() && secondary.Keys == set a | a in list
      ensures var sec0, names0 := old(secondary), old(NamesOf(table));
        var gone := sec0.Keys - secondary.Keys;
        && Grown(me, sec0 - gone, names0 - IdsOf(sec0, gone), secondary, NamesOf(table), failed)
        && (Owns(me, sec0, names0) && failed == {} ==> Owns(me, secondary, NamesOf(table)))
        && (OthersKept(me, names0, NamesOf(table)) <==> forall a | a in gone :: !Stale(me, sec0, names0, a))
      ensures table.reliable ==> forall a | a in failed :: !parses(a)
      ensures forall a | a in list && a !in old(secondary) && !parses(a) :: a in failed
    {
      hide H.Inv, H.NextId, H.Names, Owns, Stale, NamesOf, OthersKept, Grown;
      var wanted := set a | a in list;
      ghost var sec0, names0 := secondary, NamesOf(table);
      ghost var gone := sec0.Keys - wanted;
      DropObsolete(table, wanted);
      failed := AddNew(table, wanted);
      assert secondary.Keys == wanted;
      if Owns(me, sec0, names0) && failed == {} {
        OwnersStay(me, sec0, names0, gone);
        OwnersGrow(me, sec0 - gone, names0 - IdsOf(sec0, gone), secondary, NamesOf(table));
      }
      OthersKeptIff(me, sec0, names0, gone, secondary, NamesOf(table), failed);
    }
  }

  lemma GrownStart(me: nat, sec: Addrs, names: Names)
    ensures Grown(me, sec, names, sec, names, {})
  {
    assert IdsOf(sec, {}) == {};
    assert sec.Keys - sec.Keys - {} == {};
  }

  /** Somebody has host 0. A port configures an address that cannot be read, which gets id 0 without a
      host, and then drops it: host 0 is gone. */
  method StaleDrop() returns (port: Port, table: H.HostTable, ghost before: Names)
    ensures fresh(port) && fresh(table) && table.Valid() && port.secondary == map[]
    ensures before == map[0 := H.Holder(H.Entry("y", false, true), H.Creator(1, "y"))] && port.me == 0
    ensures table.hosts == map[] && !OthersKept(port.me, before, NamesOf(table))
  {
    hide H.Inv, H.Names, H.Step, Owns, Stale, Grown;
    table := new H.HostTable(true);
    port := new Port(0, a => false);
    var rc, id := table.Add(H.Entry("y", false, true), true, H.Creator(1, "y"));
    before := NamesOf(table);
    ghost var sec0 := port.secondary;
    ghost var failed := port.Configure(table, ["x"]);
    assert ["x"][0] == "x" && port.secondary.Keys == {"x"};
    OneFailed(0, "x", sec0, before, port.secondary, NamesOf(table), failed);
    ghost var sec1 := port.secondary;
    failed := port.Configure(table, []);
    assert port.secondary.Keys == {};
    NoneLeft(0, "x", sec1, before, port.secondary, NamesOf(table), failed);
    assert table.hosts.Keys == {} && before[0].creator.port != port.me;
  }

  lemma OneFailed(me: nat, a: Address, sec0: Addrs, names: Names, sec: Addrs, after: Names, failed: set<Address>)
    requires sec0 == map[] && sec.Keys == {a} && a in failed
    requires Grown(me, sec0 - (sec0.Keys - sec.Keys), names - IdsOf(sec0, sec0.Keys - sec.Keys), sec, after, failed)
    ensures sec == map[a := 0] && after == names
  {
    assert sec0 - (sec0.Keys - sec.Keys) == sec0 && IdsOf(sec0, sec0.Keys - sec.Keys) == {} && names - {} == names;
    assert sec.Keys - sec0.Keys - failed == {} && IdsOf(sec, {}) == {};
  }

  lemma NoneLeft(me: nat, a: Address, sec0: Addrs, names: Names, sec: Addrs, after: Names, failed: set<Address>)
    requires sec0 == map[a := 0] && sec.Keys == {} && names.Keys == {0}
    requires Grown(me, sec0 - (sec0.Keys - sec.Keys), names - IdsOf(sec0, sec0.Keys - sec.Keys), sec, after, failed)
    ensures after == map[]
  {
    assert sec0.Keys - sec.Keys == {a} && IdsOf(sec0, {a}) == {0};
    assert IdsOf(sec, sec.Keys - (sec0 - {a}).Keys - failed) == {};
    assert after.Keys == {};
  }
}

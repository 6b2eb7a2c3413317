/** Ports and bundles: every port is in the list of the one bundle it points back to. */
module Bundles {
  import opened Common
  import opened Lists

  type PortNo = nat
  type Aux = nat
  type Homes = map<PortNo, Option<Aux>>
  type PortLists = map<Aux, seq<PortNo>>

  datatype Errno = OK | EFAULT | EINVAL

  /** `allocOnly` asks only for the LAG handle; `isLag` is whether the bundle is a hardware LAG once
      that is settled; `inVrf` whether the bridge is a VRF; `sameName` whether the first port has the
      bundle's name; `foreign` whether its device is of a class the plugin does not drive. */
  datatype Settings = Settings(slaves: seq<PortNo>, allocOnly: bool, isLag: bool, inVrf: bool,
                               sameName: bool, foreign: bool)

  /** Lines 2032-2038 and 1459-1473: a single port that cannot be driven. */
  predicate Unfit(s: Settings) {
    !s.inVrf && !s.isLag && |s.slaves| == 1 && s.sameName && s.foreign
  }

  ghost predicate Inv(home: Homes, lists: PortLists) {
    && (forall a | a in lists :: NoDup(lists[a]))
    && (forall a, p | a in lists && p in lists[a] :: p in home && home[p] == Some(a))
    && (forall p | p in home && home[p].Some? :: home[p].value in lists && p in lists[home[p].value])
  }

  lemma RemovePortKeeps(home: Homes, lists: PortLists, p: PortNo, a: Aux)
    requires Inv(home, lists) && p in home && home[p] == Some(a)
    ensures a in lists && SetOf(Without(lists[a], p)) == SetOf(lists[a]) - {p}
    ensures Inv(home[p := None], lists[a := Without(lists[a], p)])
  {
    WithoutKeeps(lists[a], p);
    var after := lists[a := Without(lists[a], p)];
    forall q ensures q in after[a] <==> q in lists[a] && q != p {
      assert q in SetOf(after[a]) <==> q in SetOf(lists[a]) - {p};
    }
  }

  /** `ports` have left their bundles: they are at home nowhere, and bundles in `emptied` are gone. */
  ghost predicate Left(home: Homes, lists: PortLists, ports: set<PortNo>, gone: set<Aux>,
                       home': Homes, lists': PortLists) {
    && home'.Keys == home.Keys && lists'.Keys == lists.Keys - gone
    && (forall p | p in home :: home'[p] == if p in ports then None else home[p])
    && forall a | a in lists' :: SetOf(lists'[a]) == SetOf(lists[a]) - ports
  }

  lemma HomeFacts(home: Homes, lists: PortLists, a: Aux)
    requires Inv(home, lists) && a in lists
    ensures NoDup(lists[a]) && forall p | p in lists[a] :: p in home && home[p] == Some(a)
  {
  }

  lemma PointerFacts(home: Homes, lists: PortLists, p: PortNo)
    requires Inv(home, lists) && p in home
    ensures home[p].Some? ==> home[p].value in lists
    ensures home[p].None? ==> Left(home, lists, {p}, {}, home, lists)
  {
  }

  /** When all its ports have left, the bundle can go. */
  lemma AllLeft(home: Homes, lists: PortLists, home1: Homes, lists1: PortLists, a: Aux)
    requires a in lists && Left(home, lists, SetOf(lists[a]), {}, home1, lists1) && Inv(home1, lists1)
    ensures Inv(home1, lists1 - {a})
    ensures Left(home, lists, SetOf(lists[a]), {a}, home1, lists1 - {a})
  {
    assert SetOf(lists1[a]) == {};
    NoDupSize(lists1[a]);
  }

  class Ofproto {
    var home: Homes
    var lists: PortLists

    /** The ports are there, the bundles are not. */
    constructor (ports: set<PortNo>)
      ensures Inv(home, lists) && home.Keys == ports && lists == map[]
    {
      home, lists := map p | p in ports :: None, map[];
    }

    /** bundle_del_port() */
    method DelPort(p: PortNo)
      requires Inv(home, lists) && p in home && home[p].Some?
      modifies this
      ensures Inv(home, lists)
      ensures var a := old(home)[p].value;
        a in old(lists) && home == old(home)[p := None] && lists == old(lists)[a := Without(old(lists)[a], p)]
    {
      var a := home[p].value;
      RemovePortKeeps(home, lists, p, a);
      lists := lists[a := Without(lists[a], p)];
      home := home[p := None];
    }

    /** bundle_destroy(): the port list is walked while ports leave it. */
    method Destroy(a: Aux)
      requires Inv(home, lists) && a in lists
      modifies this
      ensures Inv(home, lists)
      ensures Left(old(home), old(lists), SetOf(old(lists)[a]), {a}, home, lists)
    {
      hide Inv, NoDup, Without, Left;
      var ports := lists[a];
      ghost var h0, l0 := home, lists;
      HomeFacts(home, lists, a);
      NoneLeft(home, lists);
      assert SetOf(ports[..0]) == {};
      for i := 0 to |ports|
        invariant Inv(home, lists) && home.Keys == h0.Keys && Left(h0, l0, SetOf(ports[..i]), {}, home, lists)
        invariant forall k | i <= k < |ports| :: home[ports[k]] == Some(a)
      {
        assert ports[..i + 1] == ports[..i] + [ports[i]];
        assert SetOf(ports[..i + 1]) == SetOf(ports[..i]) + {ports[i]};
        LeftOne(h0, l0, SetOf(ports[..i]), home, lists, a, ports[i]);
        LaterDiffer(ports, i);
        DelPort(ports[i]);
      }
      assert ports[..|ports|] == ports;
      AllLeft(h0, l0, home, lists, a);
      lists := lists - {a};
    }

    /** ofproto_xpliant_bundle_remove(): the last port takes its bundle along. */
    method BundleRemove(p: PortNo)
      requires Inv(home, lists) && p in home
      modifies this
      ensures Inv(home, lists)
      ensures old(home)[p].None? ==> home == old(home) && lists == old(lists)
      ensures old(home)[p].Some? ==>
        var a := old(home)[p].value;
        && a in old(lists)
        && Left(old(home), old(lists), {p}, if SetOf(old(lists)[a]) == {p} then {a} else {}, home, lists)
    {
      hide Inv, Left, NoDup, Without;
      if home[p].Some? {
        var a := home[p].value;
        ghost var h0, l0 := home, lists;
        NoneLeft(h0, l0);
        LeftOne(h0, l0, {}, h0, l0, a, p);
        assert {} + {p} == {p};
        DelPort(p);
        ghost var h1, l1 := home, lists;
        EmptyIff(h0, l0, h1, l1, a, p);
        if lists[a] == [] {
          Destroy(a);
          LeftThenGone(h0, l0, p, h1, l1, a, home, lists);
        }
      }
    }

    /** bundle_add_port(): a port that is elsewhere is first removed from there. */
    method AddPort(a: Aux, p: PortNo) returns (ok: bool)
      requires Inv(home, lists) && a in lists
      modifies this
      ensures Inv(home, lists) && ok == (p in old(home))
      ensures Joined(old(home), old(lists), a, {p} * old(home).Keys, home, lists)
    {
      hide Inv, NoDup;
      ghost var h0, l0 := home, lists;
      if p !in home { return false; }
      if home[p] != Some(a) {
        ghost var gone: set<Aux> := {};
        PointerFacts(home, lists, p);
        if home[p].Some? {
          gone := if SetOf(lists[home[p].value]) == {p} then {home[p].value} else {};
          BundleRemove(p);
        }
        assert Left(h0, l0, {p}, gone, home, lists);
        JoinKeeps(h0, l0, gone, home, lists, a, p);
        home := home[p := Some(a)];
        lists := lists[a := lists[a] + [p]];
      }
      assert {p} * h0.Keys == {p};
      if h0[p] == Some(a) { AlreadyJoined(h0, l0, a, p); }
      ok := true;
    }

    /** Lines 1986-1997: ports that are no longer slaves leave. */
    method DropExtra(a: Aux, slaves: seq<PortNo>)
      requires Inv(home, lists) && a in lists
      modifies this
      ensures Inv(home, lists)
      ensures Left(old(home), old(lists), SetOf(old(lists)[a]) - SetOf(slaves), {}, home, lists)
    {
      hide Inv, NoDup, Without, Left;
      var ports := lists[a];
      ghost var h0, l0 := home, lists;
      HomeFacts(home, lists, a);
      NoneLeft(home, lists);
      ghost var gone: set<PortNo> := {};
      for i := 0 to |ports|
        invariant Inv(home, lists) && home.Keys == h0.Keys && Left(h0, l0, gone, {}, home, lists)
        invariant gone == SetOf(ports[..i]) - SetOf(slaves)
        invariant forall k | i <= k < |ports| :: home[ports[k]] == Some(a)
      {
        assert ports[..i + 1] == ports[..i] + [ports[i]];
        assert SetOf(ports[..i + 1]) == SetOf(ports[..i]) + {ports[i]};
        if ports[i] !in slaves {
          LeftOne(h0, l0, gone, home, lists, a, ports[i]);
          LaterDiffer(ports, i);
          gone := gone + {ports[i]};
          DelPort(ports[i]);
        }
      }
      assert ports[..|ports|] == ports;
    }

    /** Lines 1999-2002: the slaves join. */
    method AddAll(a: Aux, slaves: seq<PortNo>)
      requires Inv(home, lists) && a in lists
      modifies this
      ensures Inv(home, lists) && a in lists
      ensures Joined(old(home), old(lists), a, SetOf(slaves) * old(home).Keys, home, lists)
    {
      hide Inv, NoDup, Joined;
      NoneJoined(home, lists, a);
      for i := 0 to |slaves|
        invariant Inv(home, lists) && a in lists && home.Keys == old(home).Keys
        invariant Joined(old(home), old(lists), a, SetOf(slaves[..i]) * old(home).Keys, home, lists)
      {
        assert slaves[..i + 1] == slaves[..i] + [slaves[i]];
        assert SetOf(slaves[..i + 1]) == SetOf(slaves[..i]) + {slaves[i]};
        ghost var h, l := home, lists;
        var _ := AddPort(a, slaves[i]);
        JoinedFacts(h, l, a, {slaves[i]} * h.Keys, home, lists);
        JoinedMore(old(home), old(lists), a, SetOf(slaves[..i]) * old(home).Keys, h, l,
                   {slaves[i]} * old(home).Keys, home, lists);
        assert SetOf(slaves[..i + 1]) * old(home).Keys
            == SetOf(slaves[..i]) * old(home).Keys + {slaves[i]} * old(home).Keys;
      }
      assert slaves[..|slaves|] == slaves;
    }

    /** ofproto_xpliant_bundle_set() with settings, as far as ports are concerned. `lagOk` is the
        outcome of creating or removing the hardware LAG, `config` that of bringing its members up to date. */
    method BundleSet(a: Aux, s: Settings, lagOk: bool, config: Errno) returns (rc: Errno)
      requires Inv(home, lists)
      modifies this
      ensures Inv(home, lists) && home.Keys == old(home).Keys
      ensures s.allocOnly || !lagOk ==>
        && home == old(home) && rc == (if lagOk then OK else EFAULT)
        && lists == if a in old(lists) then old(lists) else old(lists)[a := []]
      ensures !(s.allocOnly || !lagOk) ==>
        var joined := SetOf(s.slaves) * old(home).Keys;
        && (a in lists ==> SetOf(lists[a]) == joined)
        && (joined == {} ==> a !in lists && rc == OK)
        && (joined != {} && (!s.foreign || !s.sameName || s.inVrf || s.isLag || |s.slaves| != 1) ==>
              a in lists && rc == if s.isLag then config else OK)
        && (joined != {} && s.foreign && s.sameName && !s.inVrf && !s.isLag && |s.slaves| == 1 ==>
              a !in lists && rc == EINVAL)
        && (forall b | b in lists && b != a :: b in old(lists) && SetOf(lists[b]) == SetOf(old(lists)[b]) - joined)
        && forall b | b in old(lists) && b != a && b !in lists :: {} < SetOf(old(lists)[b]) <= joined
    {
      hide Inv, NoDup, Left, Joined, SetOf;
      if a !in lists {
        FreshKeeps(home, lists, a);
        lists := lists[a := []];
      }
      if s.allocOnly || !lagOk {
        return if lagOk then OK else EFAULT;
      }
      ghost var h0, l0 := home, lists;
      ghost var joined := SetOf(s.slaves) * home.Keys;
      HomeFacts(home, lists, a);
      DropExtra(a, s.slaves);
      ghost var h1, l1 := home, lists;
      LeftKeys(h0, l0, SetOf(l0[a]) - SetOf(s.slaves), h1, l1);
      AddAll(a, s.slaves);
      SetOutcome(h0, l0, h1, l1, home, lists, a, s.slaves);
      // the assertion of line 2004
      assert |lists[a]| <= |s.slaves| by {
        HomeFacts(home, lists, a);
        NoDupSize(lists[a]);
        SetSize(s.slaves);
        SubsetSize(joined, SetOf(s.slaves));
      }
      HomeFacts(home, lists, a);
      NoDupSize(lists[a]);
      if lists[a] == [] || Unfit(s) {
        ghost var h2, l2 := home, lists;
        rc := if lists[a] == [] then OK else EINVAL;
        Destroy(a);
        DestroyOutcome(h2, l2, home, lists, a);
        return;
      }
      rc := if s.isLag then config else OK;
    }
  }

  /** Bundle `a` has taken `ports`: a bundle that lost ports and has none left is gone. */
  ghost predicate Joined(home: Homes, lists: PortLists, a: Aux, ports: set<PortNo>,
                         home': Homes, lists': PortLists) {
    && home'.Keys == home.Keys
    && (forall p | p in home :: home'[p] == if p in ports then Some(a) else home[p])
    && (forall b :: b in lists' <==>
          b in lists && (b == a || SetOf(lists[b]) == {} || !(SetOf(lists[b]) <= ports)))
    && forall b | b in lists' ::
         SetOf(lists'[b]) == if b == a then SetOf(lists[b]) + ports else SetOf(lists[b]) - ports
  }

  lemma LeftOne(home: Homes, lists: PortLists, ports: set<PortNo>, home1: Homes, lists1: PortLists, a: Aux, p: PortNo)
    requires Left(home, lists, ports, {}, home1, lists1) && Inv(home1, lists1) && p in home1 && home1[p] == Some(a)
    ensures a in lists1
    ensures Left(home, lists, ports + {p}, {}, home1[p := None], lists1[a := Without(lists1[a], p)])
  {
    hide Inv, NoDup, Without;
    OnlyHome(home1, lists1, a, p);
    WithoutKeeps(lists1[a], p);
    var after := lists1[a := Without(lists1[a], p)];
    forall b | b in after ensures SetOf(after[b]) == SetOf(lists[b]) - (ports + {p}) {
      assert SetOf(lists1[b]) == SetOf(lists[b]) - ports;
      assert SetOf(after[b]) == SetOf(lists1[b]) - {p};
    }
  }

  lemma EmptyIff(home: Homes, lists: PortLists, home1: Homes, lists1: PortLists, a: Aux, p: PortNo)
    requires Inv(home, lists) && Inv(home1, lists1) && p in home && home[p] == Some(a)
    requires Left(home, lists, {p}, {}, home1, lists1)
    ensures a in lists && a in lists1 && (lists1[a] == [] <==> SetOf(lists[a]) == {p})
  {
    NoDupSize(lists1[a]);
    assert SetOf(lists1[a]) == SetOf(lists[a]) - {p};
    assert p in SetOf(lists[a]);
  }

  lemma LeftThenGone(home: Homes, lists: PortLists, p: PortNo, home1: Homes, lists1: PortLists, a: Aux,
                     home2: Homes, lists2: PortLists)
    requires Left(home, lists, {p}, {}, home1, lists1) && a in lists1 && lists1[a] == []
    requires Left(home1, lists1, SetOf(lists1[a]), {a}, home2, lists2)
    ensures Left(home, lists, {p}, {a}, home2, lists2)
  {
  }

  lemma OnlyHome(home: Homes, lists: PortLists, a: Aux, p: PortNo)
    requires Inv(home, lists) && p in home && home[p] == Some(a)
    ensures a in lists && NoDup(lists[a]) && forall b | b in lists && b != a :: p !in SetOf(lists[b])
  {
  }

  lemma NoneLeft(home: Homes, lists: PortLists)
    ensures Left(home, lists, {}, {}, home, lists)
  {
  }

  lemma AlreadyJoined(home: Homes, lists: PortLists, a: Aux, p: PortNo)
    requires Inv(home, lists) && p in home && home[p] == Some(a)
    ensures a in lists && Joined(home, lists, a, {p}, home, lists)
  {
  }

  lemma JoinKeeps(home: Homes, lists: PortLists, gone: set<Aux>, home1: Homes, lists1: PortLists, a: Aux, p: PortNo)
    requires Inv(home, lists) && Inv(home1, lists1) && Left(home, lists, {p}, gone, home1, lists1)
    requires a in lists && p in home && home[p] != Some(a) && home1[p].None?
    requires gone == if home[p].Some? && SetOf(lists[home[p].value]) == {p} then {home[p].value} else {}
    ensures a in lists1
    ensures Inv(home1[p := Some(a)], lists1[a := lists1[a] + [p]])
    ensures Joined(home, lists, a, {p}, home1[p := Some(a)], lists1[a := lists1[a] + [p]])
  {
    var h, l := home1[p := Some(a)], lists1[a := lists1[a] + [p]];
    assert p !in lists1[a];
    assert SetOf(l[a]) == SetOf(lists1[a]) + {p};
    forall b ensures b in l <==> b in lists && (b == a || SetOf(lists[b]) == {} || !(SetOf(lists[b]) <= {p})) {
      if b in lists && b != a && p in lists[b] {
        assert home[p] == Some(b);
      }
      if b in lists && SetOf(lists[b]) <= {p} && SetOf(lists[b]) != {} {
        assert SetOf(lists[b]) == {p};
        assert p in SetOf(lists[b]);
      }
    }
  }

  lemma NoneJoined(home: Homes, lists: PortLists, a: Aux)
    requires a in lists
    ensures Joined(home, lists, a, {}, home, lists)
    ensures forall k: set<PortNo> :: SetOf<PortNo>([]) * k == {}
  {
  }

  lemma JoinedFacts(home: Homes, lists: PortLists, a: Aux, ps: set<PortNo>, home1: Homes, lists1: PortLists)
    requires a in lists && Joined(home, lists, a, ps, home1, lists1)
    ensures a in lists1 && home1.Keys == home.Keys
  {
  }

  lemma JoinedMore(home: Homes, lists: PortLists, a: Aux, ps: set<PortNo>, home1: Homes, lists1: PortLists,
                   qs: set<PortNo>, home2: Homes, lists2: PortLists)
    requires a in lists && Joined(home, lists, a, ps, home1, lists1) && Joined(home1, lists1, a, qs, home2, lists2)
    ensures Joined(home, lists, a, ps + qs, home2, lists2)
  {
    forall b ensures b in lists2 <==>
      b in lists && (b == a || SetOf(lists[b]) == {} || !(SetOf(lists[b]) <= ps + qs))
    {
      if b in lists1 && b != a {
        assert SetOf(lists1[b]) == SetOf(lists[b]) - ps;
      }
    }
  }

  lemma FreshKeeps(home: Homes, lists: PortLists, a: Aux)
    requires Inv(home, lists) && a !in lists
    ensures Inv(home, lists[a := []])
  {
  }

  lemma LeftKeys(home: Homes, lists: PortLists, ports: set<PortNo>, home1: Homes, lists1: PortLists)
    requires Left(home, lists, ports, {}, home1, lists1)
    ensures home1.Keys == home.Keys && lists1.Keys == lists.Keys
  {
  }

  /** Dropping the extra ports and adding the slaves leaves exactly the known slaves. */
  lemma SetOutcome(h0: Homes, l0: PortLists, h1: Homes, l1: PortLists, h2: Homes, l2: PortLists,
                   a: Aux, slaves: seq<PortNo>)
    requires a in l0 && Left(h0, l0, SetOf(l0[a]) - SetOf(slaves), {}, h1, l1) && Inv(h0, l0)
    requires Joined(h1, l1, a, SetOf(slaves) * h0.Keys, h2, l2)
    ensures var joined := SetOf(slaves) * h0.Keys;
      && h2.Keys == h0.Keys && a in l2 && SetOf(l2[a]) == joined
      && (forall b | b in l2 && b != a :: b in l0 && SetOf(l2[b]) == SetOf(l0[b]) - joined)
      && forall b | b in l0 && b != a && b !in l2 :: {} < SetOf(l0[b]) <= joined
  {
    hide Inv, NoDup, SetOf;
    forall b | b in l0 && b != a ensures SetOf(l1[b]) == SetOf(l0[b]) {
      Apart(h0, l0, a, b);
      assert SetOf(l1[b]) == SetOf(l0[b]) - (SetOf(l0[a]) - SetOf(slaves));
    }
    KnownPorts(h0, l0, a);
    assert SetOf(l1[a]) == SetOf(l0[a]) - (SetOf(l0[a]) - SetOf(slaves));
  }

  lemma KnownPorts(home: Homes, lists: PortLists, a: Aux)
    requires Inv(home, lists) && a in lists
    ensures SetOf(lists[a]) <= home.Keys
  {
  }

  lemma Apart(home: Homes, lists: PortLists, a: Aux, b: Aux)
    requires Inv(home, lists) && a in lists && b in lists && a != b
    ensures SetOf(lists[a]) !! SetOf(lists[b])
  {
    forall p | p in lists[a] ensures p !in lists[b] {
      assert home[p] == Some(a);
    }
  }

  lemma DestroyOutcome(h2: Homes, l2: PortLists, h3: Homes, l3: PortLists, a: Aux)
    requires a in l2 && Left(h2, l2, SetOf(l2[a]), {a}, h3, l3) && Inv(h2, l2)
    ensures h3.Keys == h2.Keys && a !in l3
    ensures forall b | b in l3 :: b in l2 && b != a && SetOf(l3[b]) == SetOf(l2[b])
    ensures l3.Keys == l2.Keys - {a}
  {
  }
}

/** The L3 manager of ops-xp-routing.c: routes that share copy-on-write ECMP groups. */
module L3Routes {
  import opened Common
  import opened Lists
  import opened NhGroups
  import opened RouteSpec

  class L3Manager {
    var routes: map<Prefix, Route>
    var groups: map<GroupRef, NhGroup>
    /** The state behind the SDK calls. */
    var hw: Hardware
    /** hash_string(); nothing is known about it. */
    const hash: (NhId, nat) -> nat
    /** OFPROTO_MAX_NH_PER_ROUTE */
    const maxNh: nat
    /** Does every SDK call succeed? If not, any of them may fail at any time. */
    const reliable: bool

    constructor (hash: (NhId, nat) -> nat, maxNh: nat, reliable: bool, hwRoutes: map<Prefix, HwRoute>)
      ensures Inv(View()) && AllExact(View()) && Table(View()) == map[] && hw.leaked == {}
      ensures Tidy(groups, hw.nh) && this.hash == hash
      ensures this.maxNh == maxNh && this.reliable == reliable
    {
      this.hash, this.maxNh, this.reliable := hash, maxNh, reliable;
      routes, groups := map[], map[];
      hw := Hardware({}, {}, map[], hwRoutes);
    }

    ghost function View(): (s: L3)
      reads this
    {
      L3(routes, groups, hw, hash)
    }

    /** The answer of an SDK call. */
    method Sdk() returns (ok: bool)
      ensures reliable ==> ok
    {
      ok := *;
      ok := ok || reliable;
    }

    /** With a reliable SDK nothing is leaked, and nothing left behind in the slots. */
    twostate predicate Orderly()
      reads this
    {
      reliable ==> hw.leaked == old(hw.leaked) && (old(Tidy(groups, hw.nh)) ==> Tidy(groups, hw.nh))
    }

    // -------------------------------------------------------------- groups

    /** nh_group_alloc(): the SDK hands out a free range, or fails. */
    method NhGroupAlloc(size: nat) returns (o: Option<NhGroup>)
      modifies this`hw
      ensures o.None? ==> hw == old(hw)
      ensures o.Some? ==>
        && size <= maxNh && o.value == NhGroup([], 1, o.value.nhId, size, 0)
        && Slots(o.value) !! old(hw.inUse)
        && View() == HoldSlots(old(View()), o.value.nhId, size)
      ensures reliable && size <= maxNh ==> o.Some?
      ensures Orderly()
    {
      if size > maxNh { return None; }
      var ok := Sdk();
      if !ok { return None; }
      ghost var b := UpperBound(hw.inUse);
      assert Span(b, size) !! hw.inUse;
      var nhId: nat :| Span(nhId, size) !! hw.inUse;
      hw := hw.(inUse := hw.inUse + Span(nhId, size));
      o := Some(NhGroup([], 1, nhId, size, 0));
    }

    /** nh_insert(): the next hop takes the next slot of the group. */
    function NhInsert(g: NhGroup, id: NhId): (r: NhGroup)
      ensures GoodGroup(g) && |g.entries| < g.size ==> GoodGroup(r) && r.size == g.size
      ensures Ids(r) == Ids(g) + {id}
      ensures |r.entries| == |g.entries| + 1 && r.nhId == g.nhId && r.refCnt == g.refCnt
      ensures IdSeq(r.entries) == IdSeq(g.entries) + [id] && (Hashed(hash, g) ==> Hashed(hash, r))
    {
      var es := g.entries + [NhEntry(id, g.nhId + |g.entries|)];
      var r := NhGroup(es, g.refCnt, g.nhId, if |es| > g.size then |es| else g.size, hash(id, g.hash));
      assert forall e :: e in es <==> e in g.entries || e == es[|g.entries|];
      r
    }

    /** nh_group_free(): give the range back; a failed destroy is only logged. */
    method NhGroupFree(g: NhGroup) returns (ghost destroyed: bool)
      modifies this`hw
      ensures hw == ReleaseSlots(old(hw), Slots(g), destroyed)
      ensures reliable ==> destroyed
    {
      var ok := Sdk();
      destroyed := ok;
      if ok {
        hw := hw.(inUse := hw.inUse - Span(g.nhId, g.size));
      } else {
        hw := hw.(leaked := hw.leaked + Span(g.nhId, g.size));
      }
    }

    /** nh_group_delete() of a group that is in the map as `ref`, or not at all. */
    method NhGroupDelete(g: NhGroup, ref: Option<GroupRef>) returns (ghost nh: map<nat, NhId>, ghost destroyed: bool)
      requires GoodGroup(g)
      modifies this`groups, this`hw
      ensures groups == if ref.Some? then old(groups) - {ref.value} else old(groups)
      ensures hw == ReleaseSlots(old(hw), Slots(g), destroyed).(nh := nh)
      ensures SameOutside(nh, old(hw.nh), Slots(g))
      ensures reliable ==> destroyed && Wiped(old(hw.nh), nh, g)
    {
      if ref.Some? {
        groups := groups - {ref.value};
      }
      for i := 0 to |g.entries|
        invariant groups == if ref.Some? then old(groups) - {ref.value} else old(groups)
        invariant hw == old(hw).(nh := hw.nh)
        invariant SameOutside(hw.nh, old(hw.nh), Slots(g)) && hw.nh.Keys <= old(hw.nh).Keys
        invariant reliable ==> forall j | 0 <= j < i :: g.entries[j].slot !in hw.nh
      {
        assert g.entries[i].slot in Slots(g);
        var ok := Sdk();
        if ok {
          hw := hw.(nh := hw.nh - {g.entries[i].slot});
        }
      }
      nh := hw.nh;
      assert forall i: nat | Held(g, i) :: g.entries[i - g.nhId].slot == i;
      destroyed := NhGroupFree(g);
    }

    /** nh_group_unref(): the last reference deletes the group. */
    method NhGroupUnref(o: Option<GroupRef>) returns (ghost nh: map<nat, NhId>, ghost destroyed: bool)
      requires o.Some? ==> o.value in groups && groups[o.value].refCnt >= 1 && GoodGroup(groups[o.value])
      modifies this`groups, this`hw
      ensures o.Some? ==> SameOutside(nh, old(hw.nh), Slots(old(groups)[o.value]))
      ensures View() == UnrefGroup(old(View()), o, nh, destroyed)
      ensures reliable ==> destroyed
      ensures reliable && o.Some? && old(groups)[o.value].refCnt == 1 ==> Wiped(old(hw.nh), nh, old(groups)[o.value])
    {
      nh, destroyed := hw.nh, true;
      if o.Some? {
        var g := groups[o.value];
        groups := groups[o.value := g.(refCnt := g.refCnt - 1)];
        if g.refCnt == 1 {
          nh, destroyed := NhGroupDelete(g, o);
          assert groups == old(groups) - {o.value};
        }
      }
    }

    /** nh_group_add(): program every slot, then publish the group. */
    method NhGroupAdd(g: NhGroup) returns (rc: Errno, ref: GroupRef)
      requires GoodGroup(g)
      modifies this`groups, this`hw
      ensures hw == old(hw).(nh := hw.nh) && SameOutside(hw.nh, old(hw.nh), Slots(g))
      ensures rc == OK ==> ref !in old(groups) && groups == old(groups)[ref := g] && Programmed(hw.nh, g)
      ensures rc != OK ==> groups == old(groups)
      ensures rc in {OK, EHOSTUNREACH} && (reliable ==> rc == OK)
      ensures forall i | i in hw.nh :: i in old(hw.nh) || Held(g, i)
    {
      for i := 0 to |g.entries|
        invariant groups == old(groups)
        invariant hw == old(hw).(nh := hw.nh)
        invariant SameOutside(hw.nh, old(hw.nh), Slots(g))
        invariant forall i | i in hw.nh :: i in old(hw.nh) || Held(g, i)
        invariant forall j | 0 <= j < i :: g.entries[j].slot in hw.nh && hw.nh[g.entries[j].slot] == g.entries[j].id
      {
        assert g.entries[i].slot in Slots(g);
        var ok := Sdk();
        if !ok { return EHOSTUNREACH, 0; }
        hw := hw.(nh := hw.nh[g.entries[i].slot := g.entries[i].id]);
      }
      ghost var b := UpperBound(groups.Keys);
      assert b !in groups;
      var r: GroupRef :| r !in groups;
      groups := groups[r := g];
      return OK, r;
    }

    /** nh_group_lookup_by_route() and nh_group_lookup_by_group(): the first match in the
        unspecified order of the group map, with one more reference. */
    method NhGroupLookup(h: nat, size: nat, ids: set<NhId>) returns (o: Option<GroupRef>)
      modifies this`groups
      ensures o.None? ==> groups == old(groups) && forall r | r in groups :: !Matches(groups[r], h, size, ids)
      ensures o.Some? ==>
        && o.value in old(groups) && Matches(old(groups)[o.value], h, size, ids)
        && View() == Recount(old(View()), o.value, old(groups)[o.value].refCnt + 1)
    {
      var todo := groups.Keys;
      while todo != {}
        invariant todo <= groups.Keys && groups == old(groups)
        invariant forall r | r in groups.Keys - todo :: !Matches(groups[r], h, size, ids)
        decreases todo
      {
        var r :| r in todo;
        todo := todo - {r};
        var e := groups[r];
        if e.hash == h && e.size == size && ids <= Ids(e) {
          groups := groups[r := e.(refCnt := e.refCnt + 1)];
          return Some(r);
        }
      }
      return None;
    }

    /** Copies the entries of `from` that are not dropped, in the map's own order. */
    method CopyEntries(g0: NhGroup, from: NhGroup, drop: set<NhId>) returns (g: NhGroup)
      requires g0.entries == [] && g0.hash == 0 && |KeptAt(from.entries, drop)| <= g0.size
      ensures GoodGroup(g) && g.nhId == g0.nhId && g.size == g0.size && g.refCnt == g0.refCnt
      ensures Ids(g) == Ids(from) - drop && |g.entries| == |KeptAt(from.entries, drop)|
      ensures Hashed(hash, g) && exists at :: Order(from.entries, drop, at) && IdSeq(g.entries) == Pick(from.entries, at)
    {
      hide Ids, Fold, NoDup;
      var es := from.entries;
      var todo := Span(0, |es|);
      ghost var at: seq<nat> := [];
      g := g0;
      EmptyList(at);
      NothingListed(hash, g);
      while todo != {}
        invariant Listed(es, drop, at) && todo !! SetOf(at)
        invariant KeptAt(es, drop) <= todo + SetOf(at) && todo <= Span(0, |es|)
        invariant GoodGroup(g) && g.nhId == g0.nhId && g.size == g0.size && g.refCnt == g0.refCnt
        invariant |g.entries| == |at| && Hashed(hash, g) && IdSeq(g.entries) == Pick(es, at)
        decreases todo
      {
        var i :| i in todo;
        todo := todo - {i};
        if es[i].id !in drop {
          ListNext(es, drop, at, i);
          g := NhInsert(g, es[i].id);
          at := at + [i];
        }
      }
      assert Order(es, drop, at);
      ListDone(es, drop, at, g);
      SplitIds(from, drop);
    }

    /** Lines 770-802: requested next hops that the group does not have yet are appended. */
    method AppendNew(g0: NhGroup, nhs: seq<Nexthop>, hosts: set<int>) returns (rc: Errno, g: NhGroup)
      requires GoodGroup(g0) && Hashed(hash, g0) && |g0.entries| + |nhs| <= g0.size
      ensures rc == if AllReachable(nhs, hosts) then OK else EHOSTUNREACH
      ensures g.nhId == g0.nhId && g.size == g0.size && g.refCnt == g0.refCnt && GoodGroup(g) && Hashed(hash, g)
      ensures rc == OK ==>
        Ids(g) == Ids(g0) + Named(nhs) && IdSeq(g.entries) == IdSeq(g0.entries) + NewIds(Ids(g0), nhs)
    {
      hide Ids, Hashed, Named, NewIds, IdSeq;
      g := g0;
      NoneNew(Ids(g0), nhs);
      for i := 0 to |nhs|
        invariant forall j | 0 <= j < i :: Reachable(nhs[j], hosts)
        invariant GoodGroup(g) && g.refCnt == g0.refCnt && g.nhId == g0.nhId && g.size == g0.size && Hashed(hash, g)
        invariant Ids(g) == Ids(g0) + Named(nhs[..i]) && |g.entries| <= |g0.entries| + i
        invariant IdSeq(g.entries) == IdSeq(g0.entries) + NewIds(Ids(g0), nhs[..i])
      {
        NamedNext(nhs, i);
        NewIdsNext(Ids(g0), nhs, i);
        if !Reachable(nhs[i], hosts) { return EHOSTUNREACH, g; }
        if !Contains(g, nhs[i].id) {
          g := NhInsert(g, nhs[i].id);
        }
      }
      assert nhs[..|nhs|] == nhs;
      rc := OK;
    }

    // -------------------------------------------------------------- installing a group

    /** Reuses an equal group of the map, giving the new one back, or publishes the new one.
        Either way the caller holds one reference to the result. */
    method ShareOrAdd(ghost p: Prefix, g: NhGroup) returns (rc: Errno, ref: GroupRef, ghost reused: bool)
      requires Consistent(View(), {p}, multiset{}, Slots(g)) && GoodGroup(g) && g.refCnt == 1 && Hashed(hash, g)
      modifies this`groups, this`hw
      ensures Table(View()) == old(Table(View())) && hw.routes == old(hw.routes)
      ensures rc != OK ==> Consistent(View(), {p}, multiset{}, {}) && groups == old(groups)
      ensures rc == OK ==> Consistent(View(), {p}, multiset{ref}, {}) && ref in groups && groups[ref].size == g.size
      ensures rc == OK ==> Installed(old(groups), Ids(g), g.size, g.hash, Ids(groups[ref]))
      ensures rc == OK && reused ==> RoutesTo(routes, ref) != {}
      ensures rc == OK && !reused ==> groups[ref].refCnt == 1
      ensures Grown(old(groups), groups, Some(g))
      ensures Orderly() && rc in {OK, EHOSTUNREACH} && (reliable ==> rc == OK)
    {
      hide Consistent, GoodGroup, Programmed, SameOutside, Table, Slots, Hashed, Tidy, Held;
      ghost var s0 := View();
      var o := NhGroupLookup(g.hash, g.size, Ids(g));
      reused := o.Some?;
      if o.Some? {
        rc, ref := OK, o.value;
        RefGroupKeeps(s0, {p}, multiset{}, Slots(g), ref);
        assert multiset{} + multiset{ref} == multiset{ref};
        ghost var s1 := View();
        ghost var d := NhGroupFree(g);
        ReleaseHeldKeeps(s1, {p}, multiset{ref}, Slots(g), s1.hw.nh, d);
        HasRoute(s0, {p}, Slots(g), ref);
        assert Ids(groups[ref]) == Ids(s0.groups[ref]);
        if Tidy(s0.groups, s0.hw.nh) { TidyAlike(s0.groups, groups, hw.nh); }
      } else {
        rc, ref := NhGroupAdd(g);
        if rc != OK {
          ghost var nh, d := NhGroupDelete(g, None);
          ReleaseHeldKeeps(s0, {p}, multiset{}, Slots(g), nh, d);
        } else {
          InsertGroupKeeps(s0, {p}, multiset{}, ref, g, hw.nh);
          assert multiset{} + multiset{ref} == multiset{ref};
          if Tidy(s0.groups, s0.hw.nh) { TidyInserted(s0.groups, s0.hw.nh, ref, g, hw.nh); }
        }
      }
    }

    /** The failed update: the group is deleted, not unreferenced. */
    method AbandonGroup(ghost p: Prefix, o: Option<GroupRef>, ghost reused: bool)
      requires Consistent(View(), {p}, Pin(o), {}) && p in routes
      requires o.Some? && reused ==> RoutesTo(routes, o.value) != {}
      requires o.Some? && !reused ==> o.value in groups && groups[o.value].refCnt == 1
      modifies this`groups, this`hw
      ensures !(o.Some? && reused) ==>
        Consistent(View(), {p}, multiset{}, {}) && Table(View()) == old(Table(View()))
      ensures o.Some? && reused ==> Dangling(View())
      ensures Grown(old(groups), groups, None)
      ensures Orderly()
    {
      hide Consistent, GoodGroup, SameOutside, Table, Slots, Tidy, Wiped;
      ghost var s := View();
      PointerFacts(s, {p}, Pin(o), {}, p, o);
      if o.Some? {
        ghost var nh, d := NhGroupDelete(groups[o.value], o);
        assert View() == DropGroup(s, o.value, nh, d);
        if reliable && Tidy(s.groups, s.hw.nh) { TidyDropped(s.groups, s.hw.nh, o.value, nh); }
        if reused {
          ghost var q :| q in RoutesTo(s.routes, o.value);
          assert q in routes && routes[q].group == o && o.value !in groups;
        } else {
          assert Pin(o) == multiset{} + multiset{o.value};
          DropGroupKeeps(s, {p}, multiset{}, o.value, nh, d);
        }
      }
    }

    /** The accepted update: the old group loses one reference, the route points to the new one. */
    method CommitGroup(p: Prefix, o: Option<GroupRef>)
      requires Consistent(View(), {p}, Pin(o), {}) && p in routes && routes[p].xpRoute == HwOf(groups, o)
      modifies this
      ensures Consistent(View(), {p}, multiset{}, {})
      ensures p in routes && routes[p].refCnt == old(routes)[p].refCnt
      ensures Table(View()) == old(Table(View()))[p := IdsOf(old(groups), o)]
      ensures Grown(old(groups), groups, None) && OthersStay(old(routes), routes, p)
      ensures SizeOf(groups, routes[p].group) == old(SizeOf(groups, o))
      ensures Orderly()
    {
      hide Consistent, GoodGroup, SameOutside, Table, Slots, UnrefGroup, HwOf, IdsOf, Tidy, Wiped;
      ghost var s := View();
      PointerFacts(s, {p}, Pin(o), {}, p, routes[p].group);
      PointerFacts(s, {p}, Pin(o), {}, p, o);
      hw := hw.(routes := hw.routes[p := routes[p].xpRoute]);
      ghost var s1 := View();
      ghost var nh, d := NhGroupUnref(routes[p].group);
      routes := routes[p := routes[p].(group := o)];
      UnrefGrown(s1, s.routes[p].group, nh, d);
      if reliable { UnrefOrderly(s1, s.routes[p].group, nh); }
      assert View() == SwapGroup(s, p, o, nh, d);
      SwapGroupKeeps(s, p, o, nh, d);
      PointerFacts(View(), {p}, multiset{}, {}, p, o);
    }

    /** Points route `p` at `o`, for which the caller holds a reference, and drops its old group.
        When the hardware update fails the code deletes `o` outright: right for a group that
        was just created, but a reused group is torn away from the routes that share it. */
    method Repoint(p: Prefix, o: Option<GroupRef>, failed: Errno, ghost reused: bool)
      returns (rc: Errno, ghost dangling: bool)
      requires Consistent(View(), {p}, Pin(o), {}) && p in routes && failed != OK
      requires o.Some? && reused ==> RoutesTo(routes, o.value) != {}
      requires o.Some? && !reused ==> o.value in groups && groups[o.value].refCnt == 1
      modifies this
      ensures dangling <==> rc != OK && o.Some? && reused
      ensures rc == OK || rc == failed
      ensures !dangling ==> Consistent(View(), {p}, multiset{}, {})
      ensures dangling ==> Dangling(View())
      ensures rc == OK ==> Table(View()) == old(Table(View()))[p := IdsOf(old(groups), o)]
      ensures rc != OK && !dangling ==> Table(View()) == old(Table(View()))
      ensures p in routes && routes[p].refCnt == old(routes)[p].refCnt
      ensures Grown(old(groups), groups, None) && OthersStay(old(routes), routes, p)
      ensures rc == OK ==> SizeOf(groups, routes[p].group) == old(SizeOf(groups, o))
      ensures Orderly() && (reliable ==> rc == OK)
    {
      hide Consistent, RoutesOk, RoutesTo, GoodGroup, SameOutside, Table, Slots, UnrefGroup, Tidy;
      ghost var s := View();
      PointerFacts(s, {p}, Pin(o), {}, p, o);
      var x := if o.Some? then HwRoute(groups[o.value].nhId, groups[o.value].size) else HwRoute(0, 0);
      routes := routes[p := routes[p].(xpRoute := x)];
      XpRouteKeeps(s, {p}, Pin(o), p, x);
      var ok := Sdk();
      if !ok {
        AbandonGroup(p, o, reused);
        return failed, o.Some? && reused;
      }
      CommitGroup(p, o);
      return OK, false;
    }

    /** Lines 804-838 and 1145-1187: share or publish the new group, then point the route at it. */
    method InstallGroup(p: Prefix, g: NhGroup, failed: Errno)
      returns (rc: Errno, ghost dangling: bool, ghost got: set<NhId>)
      requires Consistent(View(), {p}, multiset{}, Slots(g)) && GoodGroup(g) && g.refCnt == 1 && Hashed(hash, g)
      requires p in routes && failed != OK
      modifies this
      ensures !dangling ==> Consistent(View(), {p}, multiset{}, {})
      ensures dangling ==> rc == failed && Dangling(View())
      ensures rc != OK && !dangling ==> Table(View()) == old(Table(View()))
      ensures rc == OK ==> !dangling && Table(View()) == old(Table(View()))[p := got]
      ensures rc == OK ==> Installed(old(groups), Ids(g), g.size, g.hash, got)
      ensures p in routes && routes[p].refCnt == old(routes)[p].refCnt
      ensures Grown(old(groups), groups, Some(g)) && OthersStay(old(routes), routes, p)
      ensures rc == OK ==> SizeOf(groups, routes[p].group) == g.size
      ensures Orderly() && rc in {OK, EHOSTUNREACH, failed} && (reliable ==> rc == OK)
    {
      hide Consistent, RoutesOk, GoodGroup, Slots, Ids, Installed, Table, RoutesTo, Hashed, Grown, Tidy;
      var ref: GroupRef;
      ghost var reused: bool;
      rc, ref, reused := ShareOrAdd(p, g);
      dangling, got := false, {};
      if rc == OK {
        got := IdsOf(groups, Some(ref));
        ghost var shared := groups;
        assert Pin(Some(ref)) == multiset{ref};
        rc, dangling := Repoint(p, Some(ref), failed, reused);
        GrownTrans(old(groups), shared, groups, Some(g));
      }
    }

    // -------------------------------------------------------------- requests

    /** Lines 740-802: a new group with the old next hops and the requested ones. */
    method BuildUpdate(p: Prefix, nhs: seq<Nexthop>, hosts: set<int>) returns (rc: Errno, g: NhGroup)
      requires Consistent(View(), {p}, multiset{}, {}) && p in routes
      modifies this`hw
      ensures Table(View()) == old(Table(View()))
      ensures rc != OK ==> Consistent(View(), {p}, multiset{}, {})
      ensures rc == OK ==>
        && Consistent(View(), {p}, multiset{}, Slots(g)) && GoodGroup(g) && g.refCnt == 1
        && Ids(g) == IdsOf(groups, routes[p].group) + Named(nhs)
        && g.size == |nhs| + SizeOf(groups, routes[p].group)
        && Hashed(hash, g) && AddHash(old(View()), p, nhs, g.hash) && AddGroup(old(View()), p, nhs, g)
      ensures Orderly() && (rc == OK ==> AllReachable(nhs, hosts))
      ensures rc in {OK, ENOMEM, EHOSTUNREACH}
      ensures rc == OK ==> |nhs| + SizeOf(groups, routes[p].group) <= maxNh
      ensures reliable ==>
        rc == if |nhs| + SizeOf(groups, routes[p].group) > maxNh then ENOMEM
              else if AllReachable(nhs, hosts) then OK else EHOSTUNREACH
    {
      hide Consistent, SameOutside, Table, Slots, Ids, Hashed, AddHash, AddGroup;
      ghost var s := View();
      var o := routes[p].group;
      PointerFacts(s, {p}, multiset{}, {}, p, o);
      var a := NhGroupAlloc(|nhs| + (if o.Some? then groups[o.value].size else 0));
      if a.None? { return ENOMEM, NhGroup([], 0, 0, 0, 0); }
      HoldSpan(s, {p}, a.value);
      g := a.value;
      ghost var at: seq<nat> := [];
      if o.Some? {
        NothingDropped(groups[o.value].entries);
        g := CopyEntries(g, groups[o.value], {});
        at :| Order(groups[o.value].entries, {}, at) && IdSeq(g.entries) == Pick(groups[o.value].entries, at);
      } else {
        NoEntries(g);
        NothingListed(hash, g);
      }
      ghost var start := IdSeq(g.entries);
      assert Ids(g) == IdsOf(groups, o);
      rc, g := AppendNew(g, nhs, hosts);
      SlotsSame(a.value, g);
      if rc != OK {
        ghost var s1 := View();
        ghost var d := NhGroupFree(g);
        FreeHeld(s1, {p}, g, d);
        return;
      }
      HaveIs(s, p);
      UpdateHash(s, p, nhs, at, g);
    }

    /** Lines 763-802 and 842-849: no new id, so the shared group is refreshed in place. */
    method RefreshGroup(p: Prefix, nhs: seq<Nexthop>, hosts: set<int>) returns (rc: Errno)
      requires Consistent(View(), {p}, multiset{}, {}) && p in routes && routes[p].group.Some?
      modifies this`hw
      ensures View() == old(View()) && rc in {OK, EHOSTUNREACH, EACCES}
      ensures rc == EHOSTUNREACH <==> !AllReachable(nhs, hosts)
      ensures reliable && AllReachable(nhs, hosts) ==> rc == OK
    {
      var ref := routes[p].group.value;
      for i := 0 to |nhs|
        invariant View() == old(View()) && forall j | 0 <= j < i :: Reachable(nhs[j], hosts)
      {
        if !Reachable(nhs[i], hosts) { return EHOSTUNREACH; }
      }
      var g := groups[ref];
      assert Programmed(hw.nh, g);
      for i := 0 to |g.entries|
        invariant View() == old(View())
      {
        var ok := Sdk();
        if !ok { return EACCES; }
        assert hw.nh[g.entries[i].slot := g.entries[i].id] == hw.nh;
        hw := hw.(nh := hw.nh[g.entries[i].slot := g.entries[i].id]);
      }
      return OK;
    }

    /** Lines 725-733: does the request name an id the route does not have? */
    method BringsNew(p: Prefix, nhs: seq<Nexthop>) returns (nhAdd: bool)
      requires p in routes
      ensures nhAdd <==> !(Named(nhs) <= IdsOf(groups, routes[p].group))
    {
      hide Ids;
      var o := routes[p].group;
      nhAdd := false;
      for i := 0 to |nhs|
        invariant nhAdd <==> !(Named(nhs[..i]) <= IdsOf(groups, o))
      {
        NamedNext(nhs, i);
        if o.None? || o.value !in groups || !Contains(groups[o.value], nhs[i].id) {
          nhAdd := true;
        }
      }
      assert nhs[..|nhs|] == nhs;
    }

    /** route_update() */
    method RouteUpdate(p: Prefix, nhs: seq<Nexthop>, hosts: set<int>)
      returns (rc: Errno, ghost dangling: bool, ghost got: set<NhId>)
      requires Consistent(View(), {p}, multiset{}, {}) && p in routes && nhs != []
      modifies this
      ensures !dangling ==> Consistent(View(), {p}, multiset{}, {})
      ensures dangling ==> rc == EACCES && Dangling(View())
      ensures rc != OK && !dangling ==> Table(View()) == old(Table(View()))
      ensures rc == OK ==> !dangling && Table(View()) == old(Table(View()))[p := got]
      ensures rc == OK ==> old(AddResult(View(), p, nhs, got))
      ensures p in routes && routes[p].refCnt == old(routes)[p].refCnt
      ensures AddFrame(old(View()), p, nhs, groups) && OthersStay(old(routes), routes, p)
      ensures rc == OK ==> SizeOf(groups, routes[p].group) == old(AddSize(View(), p, nhs))
      ensures rc in {OK, ENOMEM, EHOSTUNREACH, EACCES}
      ensures Orderly() && (rc == OK || reliable ==> rc == old(UpdateAnswer(View(), p, nhs, hosts, maxNh)))
    {
      hide Consistent, RoutesOk, GoodGroup, Slots, Ids, AddResult, AddHash, Installed, Hashed, AddFrame, Tidy, Table;
      ghost var s := View();
      PointerFacts(s, {p}, multiset{}, {}, p, routes[p].group);
      HaveIs(s, p);
      dangling, got := false, Have(Table(s), p);
      var nhAdd := BringsNew(p, nhs);
      if nhAdd {
        rc, dangling, got := Extend(p, nhs, hosts);
      } else {
        assert nhs[0].id in Named(nhs);
        rc := RefreshGroup(p, nhs, hosts);
        NothingAdded(s, p, nhs);
        SameGroups(s, p, nhs);
      }
    }

    /** Lines 740-838: the route gets a group of its own, built or shared. */
    method Extend(p: Prefix, nhs: seq<Nexthop>, hosts: set<int>)
      returns (rc: Errno, ghost dangling: bool, ghost got: set<NhId>)
      requires Consistent(View(), {p}, multiset{}, {}) && p in routes && !Known(View(), p, nhs)
      modifies this
      ensures !dangling ==> Consistent(View(), {p}, multiset{}, {})
      ensures dangling ==> rc == EACCES && Dangling(View())
      ensures rc != OK && !dangling ==> Table(View()) == old(Table(View()))
      ensures rc == OK ==> !dangling && Table(View()) == old(Table(View()))[p := got]
      ensures rc == OK ==> old(AddResult(View(), p, nhs, got))
      ensures p in routes && routes[p].refCnt == old(routes)[p].refCnt
      ensures AddFrame(old(View()), p, nhs, groups) && OthersStay(old(routes), routes, p)
      ensures rc == OK ==> SizeOf(groups, routes[p].group) == old(AddSize(View(), p, nhs))
      ensures rc in {OK, ENOMEM, EHOSTUNREACH, EACCES}
      ensures Orderly() && (rc == OK || reliable ==> rc == old(UpdateAnswer(View(), p, nhs, hosts, maxNh)))
    {
      hide Consistent, RoutesOk, GoodGroup, Slots, Ids, AddResult, AddHash, Installed, Hashed, AddGroup, Tidy, Table;
      hide Grown, AddFrame;
      ghost var s := View();
      HaveIs(s, p);
      dangling, got := false, {};
      var g: NhGroup;
      rc, g := BuildUpdate(p, nhs, hosts);
      if rc != OK {
        SameGroups(s, p, nhs);
        return;
      }
      ghost var h := g.hash;
      rc, dangling, got := InstallGroup(p, g, EACCES);
      AddedGroup(s, p, nhs, g, groups);
      if rc == OK { AddResultIs(s, p, nhs, h, got); }
    }

    /** Lines 880-897: a group with one entry per requested next hop, repeats included. */
    method BuildNew(nhs: seq<Nexthop>, hosts: set<int>) returns (rc: Errno, g: NhGroup)
      requires Inv(View())
      modifies this`hw
      ensures Table(View()) == old(Table(View()))
      ensures rc != OK ==> Inv(View())
      ensures rc == OK ==>
        && Consistent(View(), {}, multiset{}, Slots(g)) && GoodGroup(g) && g.refCnt == 1
        && Ids(g) == Named(nhs) && IdSeq(g.entries) == NamesOf(nhs) && g.size == |nhs| && Hashed(hash, g)
      ensures Orderly() && (rc == OK ==> |nhs| <= maxNh && AllReachable(nhs, hosts))
      ensures rc in {OK, ENOMEM, EHOSTUNREACH}
      ensures reliable ==> rc == if |nhs| > maxNh then ENOMEM else if AllReachable(nhs, hosts) then OK else EHOSTUNREACH
    {
      hide Consistent, SameOutside, Table, Slots, Ids, Hashed, IdSeq, Named;
      ghost var s := View();
      var a := NhGroupAlloc(|nhs|);
      if a.None? { return ENOMEM, NhGroup([], 0, 0, 0, 0); }
      HoldSpan(s, {}, a.value);
      g := a.value;
      NoEntries(g);
      NothingListed(hash, g);
      NoneNew({}, nhs);
      ghost var s1 := View();
      for i := 0 to |nhs|
        invariant View() == s1 && forall j | 0 <= j < i :: Reachable(nhs[j], hosts)
        invariant GoodGroup(g) && g.refCnt == 1 && g.nhId == a.value.nhId && g.size == |nhs|
        invariant Ids(g) == Named(nhs[..i]) && |g.entries| == i && Hashed(hash, g)
        invariant IdSeq(g.entries) == NamesOf(nhs[..i])
      {
        NamedNext(nhs, i);
        if !Reachable(nhs[i], hosts) {
          SlotsSame(a.value, g);
          ghost var d := NhGroupFree(g);
          FreeHeld(s1, {}, g, d);
          return EHOSTUNREACH, g;
        }
        g := NhInsert(g, nhs[i].id);
        assert NamesOf(nhs[..i + 1]) == NamesOf(nhs[..i]) + [nhs[i].id];
      }
      assert nhs[..|nhs|] == nhs;
      SlotsSame(a.value, g);
      rc := OK;
    }

    /** Lines 874-906: an existing group with these next hops, or a new one. */
    method AcquireGroup(ghost p: Prefix, nhs: seq<Nexthop>, hosts: set<int>) returns (rc: Errno, ref: GroupRef)
      requires Inv(View()) && p !in routes
      modifies this`groups, this`hw
      ensures Table(View()) == old(Table(View()))
      ensures rc != OK ==> Inv(View())
      ensures rc == OK ==>
        && Consistent(View(), {}, multiset{ref}, {}) && ref in groups && groups[ref].size == |nhs|
        && Installed(old(groups), Named(nhs), |nhs|, Fold(hash, NamesOf(nhs)), Ids(groups[ref]))
      ensures AddFrame(old(View()), p, nhs, groups)
      ensures rc in {OK, ENOMEM, EHOSTUNREACH}
      ensures Orderly() && (rc == OK || reliable ==> rc == old(GroupAnswer(View(), nhs, hosts, maxNh)))
    {
      hide Consistent, GoodGroup, Programmed, SameOutside, Table, Slots, Hashed, AddFrame, AddGroup, Tidy, Held;
      ghost var s := View();
      var h := 0;
      for i := 0 to |nhs|
        invariant View() == s && h == Fold(hash, NamesOf(nhs[..i]))
      {
        assert NamesOf(nhs[..i + 1]) == NamesOf(nhs[..i]) + [nhs[i].id];
        h := hash(nhs[i].id, h);
      }
      assert nhs[..|nhs|] == nhs;
      var o := NhGroupLookup(h, |nhs|, Named(nhs));
      if o.Some? {
        RefGroupKeeps(s, {}, multiset{}, {}, o.value);
        assert multiset{} + multiset{o.value} == multiset{o.value};
        assert Ids(groups[o.value]) == Ids(s.groups[o.value]);
        if Tidy(s.groups, s.hw.nh) { TidyAlike(s.groups, groups, hw.nh); }
        AddedNone(s, p, nhs, groups);
        return OK, o.value;
      }
      var g: NhGroup;
      rc, g := BuildNew(nhs, hosts);
      ref := 0;
      AddedNone(s, p, nhs, s.groups);
      if rc == OK {
        ghost var s1 := View();
        rc, ref := NhGroupAdd(g);
        if rc != OK {
          ghost var nh, d := NhGroupDelete(g, None);
          ReleaseHeldKeeps(s1, {}, multiset{}, Slots(g), nh, d);
        } else {
          InsertGroupKeeps(s1, {}, multiset{}, ref, g, hw.nh);
          assert multiset{} + multiset{ref} == multiset{ref};
          if Tidy(s1.groups, s1.hw.nh) { TidyInserted(s1.groups, s1.hw.nh, ref, g, hw.nh); }
          NewGroup(s, p, nhs, g);
          AddedGroup(s, p, nhs, g, groups);
        }
      }
    }

    /** route_add() */
    method RouteAdd(req: RouteRequest, hosts: set<int>) returns (rc: Errno, ghost got: set<NhId>)
      requires Inv(View()) && req.prefix !in routes
      modifies this
      ensures Inv(View())
      ensures rc != OK ==> Table(View()) == old(Table(View()))
      ensures rc == OK ==> Table(View()) == old(Table(View()))[req.prefix := got]
      ensures rc == OK ==> old(AddResult(View(), req.prefix, req.nexthops, got))
      ensures AddFrame(old(View()), req.prefix, req.nexthops, groups) && OthersStay(old(routes), routes, req.prefix)
      ensures rc == OK ==> SizeOf(groups, PointerOf(View(), req.prefix)) == old(AddSize(View(), req.prefix, req.nexthops))
      ensures rc in {OK, ENOMEM, EHOSTUNREACH, EPFNOSUPPORT, EAGAIN}
      ensures Orderly() && (rc == OK || reliable ==> rc == old(AddAnswer(View(), req, hosts, maxNh)))
    {
      hide Consistent, RoutesOk, GoodGroup, Slots, SameOutside, Ids, Table, UnrefGroup, Installed, AddFrame, Grown, Tidy, Wiped;
      var p := req.prefix;
      var ref: GroupRef;
      rc, ref := AcquireGroup(p, req.nexthops, hosts);
      got := {};
      if rc != OK { return; }
      ghost var s := View();
      var ok := Sdk();
      if !req.wellFormed || !ok {
        PinFacts(s, {}, ref);
        ghost var nh, d := NhGroupUnref(Some(ref));
        assert multiset{} + Pin(Some(ref)) == multiset{ref};
        UnrefGroupKeeps(s, {}, multiset{}, Some(ref), nh, d);
        UnrefGrown(s, Some(ref), nh, d);
        AddedThenKept(old(View()), p, req.nexthops, s.groups, groups);
        if reliable { UnrefOrderly(s, Some(ref), nh); }
        return if req.wellFormed then EAGAIN else EPFNOSUPPORT, {};
      }
      var x := HwRoute(groups[ref].nhId, groups[ref].size);
      hw := hw.(routes := hw.routes[p := x]);
      routes := routes[p := Route(Some(ref), 1, x)];
      assert View() == PointRoute(s, p, Some(ref), 1);
      assert multiset{} + Pin(Some(ref)) == multiset{ref};
      assert multiset{} + Pin(PointerOf(s, p)) == multiset{};
      PointRouteKeeps(s, {}, multiset{}, p, Some(ref), 1);
      got := IdsOf(groups, Some(ref));
      FreshHave(old(View()), p);
      assert {} + Named(req.nexthops) == Named(req.nexthops);
      AddResultIs(old(View()), p, req.nexthops, Fold(hash, NamesOf(req.nexthops)), got);
    }

    // -------------------------------------------------------------- routes

    /** route_delete() */
    method RouteDelete(p: Prefix)
      requires Inv(View()) && p in routes
      modifies this
      ensures Inv(View()) && routes == old(routes) - {p}
      ensures Table(View()) == old(Table(View())) - {p}
      ensures Grown(old(groups), groups, None)
      ensures Orderly() && (reliable ==> hw.routes == old(hw.routes) - {p})
    {
      hide Consistent, RoutesOk, GoodGroup, Slots, SameOutside, Ids, Table, UnrefGroup, Tidy, Wiped;
      ghost var s := View();
      PointerFacts(s, {}, multiset{}, {}, p, routes[p].group);
      var o := routes[p].group;
      routes := routes - {p};
      var ok := Sdk();
      if ok {
        hw := hw.(routes := hw.routes - {p});
      }
      ForgetRouteKeeps(s, multiset{}, p, hw.routes);
      ghost var s1 := View();
      ghost var nh, d := NhGroupUnref(o);
      UnrefGroupKeeps(s1, {}, multiset{}, o, nh, d);
      UnrefGrown(s1, o, nh, d);
      if reliable { UnrefOrderly(s1, o, nh); }
      UnrefRoutes(s1, o, nh, d);
    }

    /** route_lookup(): a hit takes a reference. */
    method RouteLookup(p: Prefix) returns (found: bool)
      modifies this`routes
      ensures found <==> p in old(routes)
      ensures found ==> View() == Rereference(old(View()), p, old(routes)[p].refCnt + 1)
      ensures !found ==> View() == old(View())
    {
      found := p in routes;
      if found {
        routes := routes[p := routes[p].(refCnt := routes[p].refCnt + 1)];
      }
    }

    /** route_unref(): the last reference deletes the route. */
    method RouteUnref(p: Prefix)
      requires p in routes && (routes[p].refCnt == 2 || (routes[p].refCnt == 1 && Inv(View())))
      modifies this
      ensures old(routes)[p].refCnt == 2 ==> View() == Rereference(old(View()), p, 1)
      ensures old(routes)[p].refCnt == 1 ==>
        && Inv(View()) && Table(View()) == old(Table(View())) - {p} && routes == old(routes) - {p}
        && Grown(old(groups), groups, None)
      ensures Orderly()
    {
      if routes[p].refCnt == 1 {
        RouteDelete(p);
      } else {
        routes := routes[p := routes[p].(refCnt := routes[p].refCnt - 1)];
      }
    }

    /** add_route_entry() */
    method AddRouteEntry(req: RouteRequest, hosts: set<int>) returns (rc: Errno, ghost dangling: bool)
      requires Inv(View()) && req.nexthops != []
      modifies this
      ensures !dangling ==> RouteStep(old(View()), Add, req, rc, View())
      ensures dangling ==> rc == EACCES && Dangling(View())
      ensures rc in {OK, ENOMEM, EHOSTUNREACH, EACCES, EPFNOSUPPORT, EAGAIN}
      ensures Orderly() && (rc == OK || reliable ==> rc == old(AddAnswer(View(), req, hosts, maxNh)))
    {
      hide Consistent, Table, AddResult, DropResult, AddFrame, DropFrame, AddSize, DropSize, Dangling, Tidy;
      ghost var s := View();
      ghost var got: set<NhId>;
      var p := req.prefix;
      dangling := false;
      var found := RouteLookup(p);
      if found {
        LookupKeeps(s, req);
        ghost var s1 := View();
        rc, dangling, got := RouteUpdate(p, req.nexthops, hosts);
        ghost var s2 := View();
        RouteUnref(p);
        if dangling {
          StillDangling(s2, p);
        } else {
          ReleaseKeeps(s2, p);
        }
      } else {
        rc, got := RouteAdd(req, hosts);
      }
      assert rc == OK ==> AddResult(s, p, req.nexthops, got) && Table(View()) == Table(s)[p := got];
    }

    /** delete_route_entry() */
    method DeleteRouteEntry(req: RouteRequest) returns (rc: Errno)
      requires Inv(View())
      modifies this
      ensures RouteStep(old(View()), Delete, req, rc, View())
      ensures rc == if req.prefix in old(routes) then OK else EFAULT
      ensures Orderly()
    {
      hide Consistent, Table, AddResult, DropResult, AddFrame, DropFrame, AddSize, DropSize, Tidy, Grown;
      ghost var s := View();
      var p := req.prefix;
      var found := RouteLookup(p);
      if found {
        RouteFacts(s, p);
        RouteUnref(p);
        assert View() == s;
        RouteUnref(p);
        rc := OK;
      } else {
        SameGroups(s, p, req.nexthops);
        rc := EFAULT;
      }
    }

    /** Lines 1108-1143: the group that is left when the named next hops go. */
    method BuildDrop(p: Prefix, nhs: seq<Nexthop>) returns (rc: Errno, o: Option<NhGroup>)
      requires Consistent(View(), {p}, multiset{}, {}) && p in routes
      requires routes[p].group.Some? && routes[p].group.value in groups
      modifies this`hw
      ensures Table(View()) == old(Table(View()))
      ensures rc != OK || o.None? ==> Consistent(View(), {p}, multiset{}, {})
      ensures rc == OK ==>
        var was := groups[routes[p].group.value];
        var n := |DroppedAt(was.entries, Named(nhs))|;
        && (o.Some? <==> was.size > n)
        && (o.Some? ==> Consistent(View(), {p}, multiset{}, Slots(o.value)) && GoodGroup(o.value)
                        && o.value.refCnt == 1 && Ids(o.value) == Ids(was) - Named(nhs) && o.value.size == was.size - n
                        && Hashed(hash, o.value) && DropHash(old(View()), p, nhs, o.value.hash)
                        && DropGroupOf(old(View()), p, nhs, o.value))
      ensures rc in {OK, ENOMEM}
      ensures Orderly() && (rc == OK || reliable ==> rc == if old(DropSize(View(), p, nhs)) > maxNh then ENOMEM else OK)
    {
      hide Consistent, Table, Slots, Ids, SameOutside, Order, Hashed, Pick, IdSeq, DropHash;
      ghost var s := View();
      PointerFacts(s, {p}, multiset{}, {}, p, routes[p].group);
      var was := groups[routes[p].group.value];
      var n := 0;
      for i := 0 to |was.entries|
        invariant View() == s && n == |DroppedAt(was.entries[..i], Named(nhs))|
      {
        DroppedNext(was.entries, i, Named(nhs));
        if was.entries[i].id in Named(nhs) {
          n := n + 1;
        }
      }
      assert was.entries[..|was.entries|] == was.entries;
      KeptCount(was.entries, Named(nhs));
      if was.size <= n { return OK, None; }
      var a := NhGroupAlloc(was.size - n);
      if a.None? { return ENOMEM, None; }
      HoldSpan(s, {p}, a.value);
      var g := CopyEntries(a.value, was, Named(nhs));
      SlotsSame(a.value, g);
      ghost var at :| Order(was.entries, Named(nhs), at) && IdSeq(g.entries) == Pick(was.entries, at);
      assert EntriesOf(s, p) == was.entries;
      HaveIs(s, p);
      DropHashIs(s, p, nhs, at, g);
      return OK, Some(g);
    }

    /** delete_nh_entry(), once the route is found. */
    method DropNexthops(p: Prefix, nhs: seq<Nexthop>)
      returns (rc: Errno, ghost dangling: bool, ghost got: set<NhId>)
      requires Consistent(View(), {p}, multiset{}, {}) && p in routes
      modifies this
      ensures !dangling ==> Consistent(View(), {p}, multiset{}, {})
      ensures dangling ==> rc == EPERM && Dangling(View())
      ensures rc != OK && !dangling ==> Table(View()) == old(Table(View()))
      ensures rc == OK ==> !dangling && Table(View()) == old(Table(View()))[p := got]
      ensures rc == OK ==> old(DropResult(View(), p, nhs, got))
      ensures p in routes && routes[p].refCnt == old(routes)[p].refCnt
      ensures DropFrame(old(View()), p, nhs, groups) && OthersStay(old(routes), routes, p)
      ensures rc == OK ==> SizeOf(groups, routes[p].group) == old(DropSize(View(), p, nhs))
      ensures rc in {OK, ENOMEM, EHOSTUNREACH, EPERM}
      ensures Orderly() && (rc == OK || reliable ==> rc == if old(DropSize(View(), p, nhs)) > maxNh then ENOMEM else OK)
    {
      hide Consistent, RoutesOk, GoodGroup, Slots, Ids, Installed, Dangling, DropHash, Hashed, DropGroupOf, Grown, DropFrame, Tidy;
      ghost var s := View();
      PointerFacts(s, {p}, multiset{}, {}, p, routes[p].group);
      dangling, got := false, {};
      SameGroups(s, p, nhs);
      if routes[p].group.None? {
        assert Table(s)[p := {}] == Table(s);
        return OK, false, {};
      }
      var o: Option<NhGroup>;
      rc, o := BuildDrop(p, nhs);
      if rc == OK {
        if o.Some? {
          rc, dangling, got := InstallGroup(p, o.value, EPERM);
          DroppedGroup(s, p, nhs, o.value, groups);
        } else {
          rc, dangling := Repoint(p, None, EPERM, false);
          DroppedNone(s, p, nhs, groups);
        }
      }
    }

    /** delete_nh_entry() */
    method DeleteNhEntry(req: RouteRequest) returns (rc: Errno, ghost dangling: bool)
      requires Inv(View())
      modifies this
      ensures !dangling ==> RouteStep(old(View()), DeleteNh, req, rc, View())
      ensures dangling ==> rc == EPERM && Dangling(View())
      ensures rc in {OK, ENOMEM, EHOSTUNREACH, EPERM}
      ensures Orderly() && (rc == OK || reliable ==> rc == old(DropAnswer(View(), req, maxNh)))
    {
      hide Consistent, Table, AddResult, DropResult, AddFrame, DropFrame, AddSize, DropSize, Tidy, Dangling;
      ghost var s := View();
      var p := req.prefix;
      dangling := false;
      var found := RouteLookup(p);
      SameGroups(s, p, req.nexthops);
      if !found { return OK, false; }
      LookupKeeps(s, req);
      ghost var got: set<NhId>;
      rc, dangling, got := DropNexthops(p, req.nexthops);
      ghost var s2 := View();
      RouteUnref(p);
      if dangling {
        StillDangling(s2, p);
      } else {
        ReleaseKeeps(s2, p);
        assert rc == OK ==> DropResult(s, p, req.nexthops, got) && Table(View()) == Table(s)[p := got];
      }
    }

    /** ops_xp_routing_route_entry_action() */
    method RouteEntryAction(action: Action, req: RouteRequest, hosts: set<int>)
      returns (rc: Errno, ghost dangling: bool)
      requires Inv(View())
      modifies this
      ensures req.nexthops == [] ==> rc == EINVAL && View() == old(View())
      ensures !dangling ==> RouteStep(old(View()), action, req, rc, View())
      ensures dangling ==> rc in {EACCES, EPERM} && action in {Add, DeleteNh} && !Inv(View())
      ensures action == Add && rc == OK ==>
        || (forall i | 0 <= i < |req.nexthops| && req.nexthops[i].resolved :: req.nexthops[i].egressId in hosts)
        || (req.prefix !in old(routes) && old(Shareable(View(), req.nexthops)))
      ensures && reliable && action == Add && (req.prefix in old(routes) || !old(Shareable(View(), req.nexthops)))
              && |req.nexthops| + old(SizeOf(groups, PointerOf(View(), req.prefix))) <= maxNh
              && (exists i :: 0 <= i < |req.nexthops| && req.nexthops[i].resolved && req.nexthops[i].egressId !in hosts)
              ==> rc == EHOSTUNREACH
      ensures Orderly() && (rc == OK || reliable ==> rc == old(Answer(View(), action, req, hosts, maxNh)))
    {
      hide Consistent, Table, AddResult, DropResult, AddFrame, DropFrame, AddSize, DropSize, Tidy, Dangling;
      SameGroups(View(), req.prefix, req.nexthops);
      if req.nexthops == [] { return EINVAL, false; }
      dangling := false;
      match action {
        case Add => rc, dangling := AddRouteEntry(req, hosts);
        case Delete => rc := DeleteRouteEntry(req);
        case DeleteNh => rc, dangling := DeleteNhEntry(req);
        case Unknown => rc := EINVAL;
      }
      if dangling { DanglingBreaks(View()); }
    }

    /** ops_xp_l3_mgr_destroy(): once the routes are gone the second loop has nothing to delete. */
    method Destroy()
      requires Inv(View())
      modifies this
      ensures routes == map[] && groups == map[]
      ensures hw.inUse == hw.leaked
      ensures Orderly() && (reliable && old(Tidy(groups, hw.nh)) ==> hw.nh == map[])
    {
      while routes != map[]
        invariant Inv(View()) && Orderly()
        decreases routes.Keys
      {
        var p :| p in routes;
        RouteDelete(p);
      }
      assert groups == map[] by {
        forall r | r in groups ensures false { HasRoute(View(), {}, {}, r); }
      }
      assert GroupSlots(groups) == {};
    }
  }

  // ---------------------------------------------------------------- the code at its limits

  /** ADD of the ids in `nhs` to a prefix that has none of them, by a manager with exact groups. */
  method AddCleanly(m: L3Manager, p: Prefix, nhs: seq<Nexthop>)
    requires Inv(m.View()) && AllExact(m.View()) && m.reliable && p !in m.routes
    requires nhs != [] && |nhs| <= m.maxNh && Distinct(nhs) && AllReachable(nhs, {})
    modifies m
    ensures Inv(m.View()) && AllExact(m.View()) && Table(m.View()) == old(Table(m.View()))[p := Named(nhs)]
  {
    hide Consistent, AllExact, Table, Outcome, Frame;
    ghost var s, req := m.View(), RouteRequest(p, nhs, true);
    FreshHave(s, p);
    var rc, dangling := m.RouteEntryAction(Add, RouteRequest(p, nhs, true), {});
    CleanStep(s, Add, req, rc, m.View());
    assert {} + Named(nhs) == Named(nhs);
  }

  /** ADD of A and B to the route p, which has A, beside a route q. */
  method AddKnownAndNew(m: L3Manager) returns (rc: Errno)
    requires Inv(m.View()) && AllExact(m.View()) && m.hash == ZERO && m.reliable && m.maxNh >= 3
    requires "p" in Table(m.View()) && Table(m.View())["p"] == {"A"}
    modifies m
    ensures rc == OK && RouteStep(old(m.View()), Add, RouteRequest("p", A_AND_B, true), OK, m.View())
  {
    hide Consistent, AddResult, AllExact, Table, Named, Frame, Distinct, AllReachable, RouteStep;
    Hops();
    Letters();
    ghost var s := m.View();
    RoutesAre(s, Table(s));
    ghost var gp := GroupOf(s, "p");
    ghost var dangling;
    rc, dangling := m.RouteEntryAction(Add, RouteRequest("p", A_AND_B, true), {});
  }

  /** A route to {A}, a route to {A, B, C}, and then A and B added to the first: the code answers OK and
      adds C, too. */
  method Overshoot() returns (m: L3Manager, rc: Errno)
    ensures fresh(m) && rc == OK && Table(m.View()) == map["p" := {"A", "B", "C"}, "q" := {"A", "B", "C"}]
  {
    hide Consistent, AddResult, AllExact, Table, Named, Frame, Distinct, AllReachable;
    Hops();
    Letters();
    m := new L3Manager(ZERO, 3, true, map[]);
    RoutesAre(m.View(), Table(m.View()));
    AddCleanly(m, "p", JUST_A);
    RoutesAre(m.View(), Table(m.View()));
    AddCleanly(m, "q", A_TO_C);
    ghost var s := m.View();
    RoutesAre(s, Table(s));
    assert Table(s) == map["p" := {"A"}, "q" := {"A", "B", "C"}];
    rc := AddKnownAndNew(m);
    ghost var got :| AddResult(s, "p", A_AND_B, got) && Table(m.View()) == Table(s)["p" := got];
    MixedAddOvershoots(s, got);
  }

  /** A route to {A, B}, a route to {A}, and A and B added to the second. */
  method Spare() returns (m: L3Manager)
    ensures fresh(m) && m.reliable && m.maxNh == 3 && Inv(m.View()) && SpareSlot(m.View())
  {
    hide Consistent, AddResult, DropResult, AllExact, Table, Named, Frame, Distinct, AllReachable, SpareSlot, Outcome;
    Hops();
    Letters();
    m := new L3Manager(ZERO, 3, true, map[]);
    RoutesAre(m.View(), Table(m.View()));
    AddCleanly(m, "q", A_AND_B);
    RoutesAre(m.View(), Table(m.View()));
    AddCleanly(m, "p", JUST_A);
    ghost var s := m.View();
    assert Table(s) == map["q" := {"A", "B"}, "p" := {"A"}];
    var _ := AddKnownAndNew(m);
    MixedAddSpares(s, m.View());
  }

  /** From there B is removed from the second route: the code answers OK and B stays. */
  method Undershoot() returns (m: L3Manager, rc: Errno)
    ensures fresh(m) && rc == OK && Table(m.View()) == map["p" := {"A", "B"}, "q" := {"A", "B"}]
  {
    hide Consistent, AddResult, DropResult, AllExact, Table, Named, Frame, Distinct, AllReachable;
    Hops();
    Letters();
    m := Spare();
    ghost var t := m.View();
    RoutesAre(t, Table(t));
    ghost var dangling;
    rc, dangling := m.RouteEntryAction(DeleteNh, RouteRequest("p", JUST_B, true), {});
    ghost var got :| DropResult(t, "p", JUST_B, got) && Table(m.View()) == Table(t)["p" := got];
    DropUndershoots(t, got);
  }
}

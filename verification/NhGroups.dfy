/** The tables of the L3 manager as values: routes, the ECMP next-hop groups they
    share, and the hardware slots the groups own; with the invariant that ties the
    three together and the effect of each primitive step on it. */
module NhGroups {
  import opened Common
  import opened Lists

  type Prefix = string
  type NhId = string
  type GroupRef = nat

  datatype NhEntry = NhEntry(id: NhId, slot: nat)

  /** `entries` is the group's next-hop map in insertion order; duplicates are possible. */
  datatype NhGroup = NhGroup(entries: seq<NhEntry>, refCnt: nat, nhId: nat, size: nat, hash: nat)

  datatype HwRoute = HwRoute(nhId: nat, ecmpSize: nat)

  /** `xpRoute` is the software copy of what was last written (or tried) in hardware. */
  datatype Route = Route(group: Option<GroupRef>, refCnt: nat, xpRoute: HwRoute)

  /** What the SDK holds. `leaked` are slots whose destroy call failed. */
  datatype Hardware = Hardware(inUse: set<nat>, leaked: set<nat>,
                               nh: map<nat, NhId>, routes: map<Prefix, HwRoute>)

  /** `hash` is hash_string(), about which nothing is known. */
  datatype L3 = L3(routes: map<Prefix, Route>, groups: map<GroupRef, NhGroup>, hw: Hardware,
                   hash: (NhId, nat) -> nat)

  function Ids(g: NhGroup): (r: set<NhId>) {
    set e | e in g.entries :: e.id
  }

  function Slots(g: NhGroup): (r: set<nat>) {
    Span(g.nhId, g.size)
  }

  /** The next-hop ids a group pointer stands for. */
  function IdsOf(groups: map<GroupRef, NhGroup>, o: Option<GroupRef>): (r: set<NhId>) {
    if o.Some? && o.value in groups then Ids(groups[o.value]) else {}
  }

  function HwOf(groups: map<GroupRef, NhGroup>, o: Option<GroupRef>): (r: HwRoute) {
    if o.Some? && o.value in groups
    then HwRoute(groups[o.value].nhId, groups[o.value].size) else HwRoute(0, 0)
  }

  /** The plain table that the shared groups stand for: prefix to set of next-hop ids. */
  function Table(s: L3): (r: map<Prefix, set<NhId>>) {
    map p | p in s.routes :: IdsOf(s.groups, s.routes[p].group)
  }

  function RoutesTo(routes: map<Prefix, Route>, r: GroupRef): (ps: set<Prefix>) {
    set p | p in routes && routes[p].group == Some(r)
  }

  ghost function GroupSlots(groups: map<GroupRef, NhGroup>): (r: set<nat>) {
    set r, i | r in groups && i in Slots(groups[r]) :: i
  }

  function IdSeq(es: seq<NhEntry>): (r: seq<NhId>) {
    seq(|es|, i requires 0 <= i < |es| => es[i].id)
  }

  /** The hash of a list of ids, folded from the first to the last. */
  function Fold(hash: (NhId, nat) -> nat, ids: seq<NhId>): (h: nat) {
    if ids == [] then 0 else hash(ids[|ids| - 1], Fold(hash, ids[..|ids| - 1]))
  }

  // ---------------------------------------------------------------- invariant

  /** A group carries the hash of its ids in slot order. */
  ghost predicate Hashed(hash: (NhId, nat) -> nat, g: NhGroup) {
    g.hash == Fold(hash, IdSeq(g.entries))
  }

  ghost predicate HashesOk(s: L3) {
    forall r {:trigger Hashed(s.hash, s.groups[r])} | r in s.groups :: Hashed(s.hash, s.groups[r])
  }

  lemma HashesKept(s: L3, t: L3)
    requires HashesOk(s) && t.hash == s.hash
    requires forall r | r in t.groups ::
               r in s.groups && t.groups[r].entries == s.groups[r].entries && t.groups[r].hash == s.groups[r].hash
    ensures HashesOk(t)
  {
    forall r | r in t.groups ensures Hashed(t.hash, t.groups[r]) {
      assert Hashed(s.hash, s.groups[r]);
    }
  }

  /** A group never outgrows its allocation and its k-th next hop sits in its k-th slot. */
  ghost predicate GoodGroup(g: NhGroup) {
    && |g.entries| <= g.size
    && forall i | 0 <= i < |g.entries| :: g.entries[i].slot == g.nhId + i
  }

  ghost predicate Programmed(nh: map<nat, NhId>, g: NhGroup) {
    forall i | 0 <= i < |g.entries| ::
      g.entries[i].slot in nh && nh[g.entries[i].slot] == g.entries[i].id
  }

  /** `pinned` are the routes a caller holds one more reference to. */
  ghost predicate RoutesOk(s: L3, pinned: set<Prefix>) {
    forall p | p in s.routes ::
      && s.routes[p].refCnt == (if p in pinned then 2 else 1)
      && (s.routes[p].group.Some? ==> s.routes[p].group.value in s.groups)
  }

  /** `pins` are the group references held by a call in progress. */
  ghost predicate RefCountsOk(s: L3, pins: multiset<GroupRef>) {
    && (forall r | r in s.groups ::
          s.groups[r].refCnt == |RoutesTo(s.routes, r)| + pins[r] && s.groups[r].refCnt >= 1)
    && forall r | r in pins :: r in s.groups
  }

  /** `held` are slots of a group that is not in the group map yet. */
  ghost predicate SlotsOk(s: L3, held: set<nat>) {
    && (forall r {:trigger GoodGroup(s.groups[r])} | r in s.groups :: GoodGroup(s.groups[r]))
    && (forall q, r {:trigger Slots(s.groups[q]), Slots(s.groups[r])} |
          q in s.groups && r in s.groups && q != r :: Slots(s.groups[q]) !! Slots(s.groups[r]))
    && s.hw.inUse == GroupSlots(s.groups) + s.hw.leaked + held
    && GroupSlots(s.groups) !! s.hw.leaked !! held
  }

  ghost predicate HardwareOk(s: L3) {
    && (forall r {:trigger Programmed(s.hw.nh, s.groups[r])} | r in s.groups ::
          Programmed(s.hw.nh, s.groups[r]))
    && forall p | p in s.routes ::
         p in s.hw.routes && s.hw.routes[p] == HwOf(s.groups, s.routes[p].group)
  }

  ghost predicate Consistent(s: L3, pinned: set<Prefix>, pins: multiset<GroupRef>, held: set<nat>) {
    RoutesOk(s, pinned) && RefCountsOk(s, pins) && SlotsOk(s, held) && HardwareOk(s) && HashesOk(s)
  }

  /** The invariant at every request boundary. */
  ghost predicate Inv(s: L3) {
    Consistent(s, {}, multiset{}, {})
  }

  // ---------------------------------------------------------------- primitive steps

  function HoldSlots(s: L3, base: nat, size: nat): (r: L3) {
    s.(hw := s.hw.(inUse := s.hw.inUse + Span(base, size)))
  }

  /** Returning slots to the SDK; a failed destroy call leaks them. */
  function ReleaseSlots(hw: Hardware, slots: set<nat>, destroyed: bool): (r: Hardware) {
    if destroyed then hw.(inUse := hw.inUse - slots)
    else hw.(leaked := hw.leaked + slots)
  }

  /** A group enters the map; `nh` is the slot contents after programming it. */
  function InsertGroup(s: L3, r: GroupRef, g: NhGroup, nh: map<nat, NhId>): (t: L3) {
    s.(groups := s.groups[r := g], hw := s.hw.(nh := nh))
  }

  function Recount(s: L3, r: GroupRef, n: nat): (t: L3)
    requires r in s.groups
  {
    s.(groups := s.groups[r := s.groups[r].(refCnt := n)])
  }

  /** Dropping a group: its slots are cleared (`nh`) and given back. */
  function DropGroup(s: L3, r: GroupRef, nh: map<nat, NhId>, destroyed: bool): (t: L3)
    requires r in s.groups
  {
    s.(groups := s.groups - {r},
       hw := ReleaseSlots(s.hw, Slots(s.groups[r]), destroyed).(nh := nh))
  }

  function UnrefGroup(s: L3, o: Option<GroupRef>, nh: map<nat, NhId>, destroyed: bool): (t: L3)
    requires o.Some? ==> o.value in s.groups && s.groups[o.value].refCnt >= 1
  {
    if o.None? then s
    else if s.groups[o.value].refCnt == 1 then DropGroup(s, o.value, nh, destroyed)
    else Recount(s, o.value, s.groups[o.value].refCnt - 1)
  }

  function SetGroup(s: L3, p: Prefix, o: Option<GroupRef>): (t: L3)
    requires p in s.routes
  {
    s.(routes := s.routes[p := s.routes[p].(group := o)])
  }

  /** `nh` differs from `was` only inside `slots`. */
  ghost predicate SameOutside(nh: map<nat, NhId>, was: map<nat, NhId>, slots: set<nat>) {
    forall i {:trigger nh[i]} {:trigger i in nh} | i !in slots :: (i in nh <==> i in was) && (i in nh ==> nh[i] == was[i])
  }

  function Pin(o: Option<GroupRef>): (r: multiset<GroupRef>) {
    if o.Some? then multiset{o.value} else multiset{}
  }

  // ---------------------------------------------------------------- slots

  lemma InsertedSlots(groups: map<GroupRef, NhGroup>, r: GroupRef, g: NhGroup)
    requires r !in groups
    ensures GroupSlots(groups[r := g]) == GroupSlots(groups) + Slots(g)
  {
    var after := groups[r := g];
    forall i | i in GroupSlots(groups) + Slots(g) ensures i in GroupSlots(after) {
      if i in Slots(g) {
        assert r in after && i in Slots(after[r]);
      } else {
        var q :| q in groups && i in Slots(groups[q]);
        assert q in after && i in Slots(after[q]);
      }
    }
  }

  lemma RemovedSlots(groups: map<GroupRef, NhGroup>, r: GroupRef)
    requires r in groups
    requires forall p, q | p in groups && q in groups && p != q :: Slots(groups[p]) !! Slots(groups[q])
    ensures GroupSlots(groups - {r}) == GroupSlots(groups) - Slots(groups[r])
    ensures Slots(groups[r]) <= GroupSlots(groups)
  {
    var after := groups - {r};
    forall i | i in GroupSlots(groups) - Slots(groups[r]) ensures i in GroupSlots(after) {
      var q :| q in groups && i in Slots(groups[q]);
      assert q in after && i in Slots(after[q]);
    }
  }

  /** The plain table only depends on the entries of the groups that routes point to. */
  lemma SameTable(s: L3, t: L3)
    requires s.routes == t.routes
    requires forall p | p in s.routes && s.routes[p].group.Some? && s.routes[p].group.value in s.groups ::
               && s.routes[p].group.value in t.groups
               && t.groups[s.routes[p].group.value].entries == s.groups[s.routes[p].group.value].entries
    requires forall r | r in t.groups :: r in s.groups || RoutesTo(s.routes, r) == {}
    ensures Table(s) == Table(t)
  {
    forall p | p in s.routes
      ensures IdsOf(t.groups, s.routes[p].group) == IdsOf(s.groups, s.routes[p].group)
    {
      var o := s.routes[p].group;
      assert o.Some? ==> p in RoutesTo(s.routes, o.value);
    }
  }

  /** Changing only a reference count moves no slot and changes no set. */
  lemma RecountSlots(s: L3, r: GroupRef, n: nat, held: set<nat>)
    requires SlotsOk(s, held) && r in s.groups
    ensures SlotsOk(Recount(s, r, n), held)
  {
    var t := Recount(s, r, n);
    assert t.groups.Keys == s.groups.Keys;
    assert forall q | q in s.groups :: Slots(t.groups[q]) == Slots(s.groups[q]);
    assert GroupSlots(t.groups) == GroupSlots(s.groups);
    assert forall q | q in s.groups :: GoodGroup(s.groups[q]);
  }

  lemma RecountSets(s: L3, r: GroupRef, n: nat)
    requires HardwareOk(s) && r in s.groups
    ensures HardwareOk(Recount(s, r, n))
    ensures Table(Recount(s, r, n)) == Table(s)
  {
    var t := Recount(s, r, n);
    forall q | q in t.groups ensures Programmed(t.hw.nh, t.groups[q]) {
      assert Programmed(s.hw.nh, s.groups[q]);
    }
    assert Table(t) == Table(s) by { SameTable(s, t); }
  }

  // ---------------------------------------------------------------- step lemmas

  /** Giving back the slots of a group that never reached the group map. */
  lemma ReleaseHeldKeeps(s: L3, pinned: set<Prefix>, pins: multiset<GroupRef>, held: set<nat>,
                         nh: map<nat, NhId>, destroyed: bool)
    requires Consistent(s, pinned, pins, held)
    requires SameOutside(nh, s.hw.nh, held)
    ensures Consistent(s.(hw := ReleaseSlots(s.hw, held, destroyed).(nh := nh)), pinned, pins, {})
    ensures Table(s.(hw := ReleaseSlots(s.hw, held, destroyed).(nh := nh))) == Table(s)
  {
    forall r | r in s.groups ensures Programmed(nh, s.groups[r]) {
      ProgrammedKept(s, r, nh, held);
    }
  }

  lemma ProgrammedKept(s: L3, r: GroupRef, nh: map<nat, NhId>, slots: set<nat>)
    requires r in s.groups && GoodGroup(s.groups[r]) && Programmed(s.hw.nh, s.groups[r])
    requires SameOutside(nh, s.hw.nh, slots)
    requires Slots(s.groups[r]) !! slots || GroupSlots(s.groups) !! slots
    ensures Programmed(nh, s.groups[r])
  {
    var g := s.groups[r];
    forall i | 0 <= i < |g.entries| ensures g.entries[i].slot in nh && nh[g.entries[i].slot] == g.entries[i].id {
      var x := g.entries[i].slot;
      assert InSpan(x, g.nhId, g.size) && x in Slots(g) && x in GroupSlots(s.groups) && x !in slots;
    }
  }

  /** A programmed group enters the map with the one reference its creator holds. */
  lemma InsertGroupKeeps(s: L3, pinned: set<Prefix>, pins: multiset<GroupRef>, r: GroupRef, g: NhGroup,
                         nh: map<nat, NhId>)
    requires Consistent(s, pinned, pins, Slots(g))
    requires r !in s.groups && GoodGroup(g) && g.refCnt == 1 && Programmed(nh, g) && Hashed(s.hash, g)
    requires SameOutside(nh, s.hw.nh, Slots(g))
    ensures Consistent(InsertGroup(s, r, g, nh), pinned, pins + multiset{r}, {})
    ensures Table(InsertGroup(s, r, g, nh)) == Table(s)
  {
    hide SlotsOk, RefCountsOk, HardwareOk, Table, SameOutside, GoodGroup, Programmed, Slots, Hashed;
    NobodyPoints(s, pinned, r);
    InsertGroupSlots(s, r, g, nh);
    InsertGroupRefs(s, pins, r, g, nh);
    InsertGroupHardware(s, r, g, nh);
  }

  lemma NobodyPoints(s: L3, pinned: set<Prefix>, r: GroupRef)
    requires RoutesOk(s, pinned) && r !in s.groups
    ensures RoutesTo(s.routes, r) == {}
  {
  }

  lemma InsertGroupSlots(s: L3, r: GroupRef, g: NhGroup, nh: map<nat, NhId>)
    requires SlotsOk(s, Slots(g)) && r !in s.groups && GoodGroup(g)
    ensures SlotsOk(InsertGroup(s, r, g, nh), {})
  {
    InsertedSlots(s.groups, r, g);
    forall q | q in s.groups ensures Slots(s.groups[q]) !! Slots(g) {
      assert Slots(s.groups[q]) <= GroupSlots(s.groups);
    }
  }

  lemma InsertGroupRefs(s: L3, pins: multiset<GroupRef>, r: GroupRef, g: NhGroup, nh: map<nat, NhId>)
    requires RefCountsOk(s, pins) && r !in s.groups && g.refCnt == 1 && RoutesTo(s.routes, r) == {}
    ensures RefCountsOk(InsertGroup(s, r, g, nh), pins + multiset{r})
  {
  }

  lemma InsertGroupHardware(s: L3, r: GroupRef, g: NhGroup, nh: map<nat, NhId>)
    requires HardwareOk(s) && SlotsOk(s, Slots(g)) && SameOutside(nh, s.hw.nh, Slots(g))
    requires r !in s.groups && Programmed(nh, g) && RoutesTo(s.routes, r) == {}
    ensures HardwareOk(InsertGroup(s, r, g, nh))
    ensures Table(InsertGroup(s, r, g, nh)) == Table(s)
  {
    var t := InsertGroup(s, r, g, nh);
    forall q | q in s.groups ensures Programmed(nh, s.groups[q]) {
      assert GoodGroup(s.groups[q]) && Programmed(s.hw.nh, s.groups[q]);
      ProgrammedKept(s, q, nh, Slots(g));
    }
    NotPointedTo(s.routes, r);
    SameTable(s, t);
  }

  lemma NotPointedTo(routes: map<Prefix, Route>, r: GroupRef)
    requires RoutesTo(routes, r) == {}
    ensures forall p | p in routes :: routes[p].group != Some(r)
  {
    forall p | p in routes ensures routes[p].group != Some(r) {
      assert p in RoutesTo(routes, r) <==> routes[p].group == Some(r);
    }
  }

  lemma RecountRefs(s: L3, r: GroupRef, n: nat, pins: multiset<GroupRef>, pins': multiset<GroupRef>)
    requires RefCountsOk(s, pins) && r in s.groups && n >= 1
    requires pins' == pins[r := pins'[r]] && s.groups[r].refCnt - pins[r] == n - pins'[r]
    ensures RefCountsOk(Recount(s, r, n), pins')
  {
  }

  lemma RefGroupKeeps(s: L3, pinned: set<Prefix>, pins: multiset<GroupRef>, held: set<nat>, r: GroupRef)
    requires Consistent(s, pinned, pins, held) && r in s.groups
    ensures Consistent(Recount(s, r, s.groups[r].refCnt + 1), pinned, pins + multiset{r}, held)
    ensures Table(Recount(s, r, s.groups[r].refCnt + 1)) == Table(s)
  {
    hide SlotsOk, RefCountsOk, HardwareOk, Table;
    var n := s.groups[r].refCnt + 1;
    RecountSlots(s, r, n, held);
    RecountSets(s, r, n);
    RecountRefs(s, r, n, pins, pins + multiset{r});
    HashesKept(s, Recount(s, r, n));
  }

  /** Dropping a held reference; the last one takes the group and its slots along. */
  lemma UnrefGroupKeeps(s: L3, pinned: set<Prefix>, pins: multiset<GroupRef>, o: Option<GroupRef>,
                        nh: map<nat, NhId>, destroyed: bool)
    requires Consistent(s, pinned, pins + Pin(o), {})
    requires o.Some? ==> o.value in s.groups && s.groups[o.value].refCnt >= 1
    requires o.Some? ==> SameOutside(nh, s.hw.nh, Slots(s.groups[o.value]))
    ensures Consistent(UnrefGroup(s, o, nh, destroyed), pinned, pins, {})
    ensures Table(UnrefGroup(s, o, nh, destroyed)) == Table(s)
  {
    hide Consistent, SameOutside, Slots, Table;
    if o.None? {
      assert pins + Pin(o) == pins;
    } else if s.groups[o.value].refCnt == 1 {
      DropGroupKeeps(s, pinned, pins, o.value, nh, destroyed);
    } else {
      DecGroupKeeps(s, pinned, pins, o.value);
    }
  }

  lemma DecGroupKeeps(s: L3, pinned: set<Prefix>, pins: multiset<GroupRef>, r: GroupRef)
    requires Consistent(s, pinned, pins + multiset{r}, {})
    requires r in s.groups && s.groups[r].refCnt > 1
    ensures Consistent(Recount(s, r, s.groups[r].refCnt - 1), pinned, pins, {})
    ensures Table(Recount(s, r, s.groups[r].refCnt - 1)) == Table(s)
  {
    hide SlotsOk, RefCountsOk, HardwareOk, Table;
    var n := s.groups[r].refCnt - 1;
    RecountSlots(s, r, n, {});
    RecountSets(s, r, n);
    RecountRefs(s, r, n, pins + multiset{r}, pins);
    HashesKept(s, Recount(s, r, n));
  }

  lemma DropGroupKeeps(s: L3, pinned: set<Prefix>, pins: multiset<GroupRef>, r: GroupRef,
                       nh: map<nat, NhId>, destroyed: bool)
    requires Consistent(s, pinned, pins + multiset{r}, {})
    requires r in s.groups && s.groups[r].refCnt == 1
    requires SameOutside(nh, s.hw.nh, Slots(s.groups[r]))
    ensures Consistent(DropGroup(s, r, nh, destroyed), pinned, pins, {})
    ensures Table(DropGroup(s, r, nh, destroyed)) == Table(s)
  {
    hide SlotsOk, RefCountsOk, HardwareOk, Table, SameOutside, Slots;
    LastPin(s, pins, r);
    NotPointedTo(s.routes, r);
    DropGroupSlots(s, r, nh, destroyed);
    DropGroupRefs(s, pins, r, nh, destroyed);
    DropGroupHardware(s, r, nh, destroyed);
  }

  lemma LastPin(s: L3, pins: multiset<GroupRef>, r: GroupRef)
    requires RefCountsOk(s, pins + multiset{r}) && r in s.groups && s.groups[r].refCnt == 1
    ensures RoutesTo(s.routes, r) == {}
  {
  }

  lemma DropGroupSlots(s: L3, r: GroupRef, nh: map<nat, NhId>, destroyed: bool)
    requires SlotsOk(s, {}) && r in s.groups
    ensures SlotsOk(DropGroup(s, r, nh, destroyed), {})
  {
    RemovedSlots(s.groups, r);
    forall q | q in s.groups ensures GoodGroup(s.groups[q]) {}
  }

  lemma DropGroupRefs(s: L3, pins: multiset<GroupRef>, r: GroupRef, nh: map<nat, NhId>, destroyed: bool)
    requires RefCountsOk(s, pins + multiset{r}) && r in s.groups && s.groups[r].refCnt == 1
    ensures RefCountsOk(DropGroup(s, r, nh, destroyed), pins)
  {
  }

  lemma DropGroupHardware(s: L3, r: GroupRef, nh: map<nat, NhId>, destroyed: bool)
    requires HardwareOk(s) && SlotsOk(s, {}) && r in s.groups && RoutesTo(s.routes, r) == {}
    requires SameOutside(nh, s.hw.nh, Slots(s.groups[r]))
    ensures HardwareOk(DropGroup(s, r, nh, destroyed))
    ensures Table(DropGroup(s, r, nh, destroyed)) == Table(s)
  {
    var t := DropGroup(s, r, nh, destroyed);
    NotPointedTo(s.routes, r);
    forall q | q in t.groups ensures Programmed(nh, t.groups[q]) {
      assert GoodGroup(s.groups[q]) && Programmed(s.hw.nh, s.groups[q]);
      ProgrammedKept(s, q, nh, Slots(s.groups[r]));
    }
    SameTable(s, t);
  }

  // ---------------------------------------------------------------- routes

  function PointerOf(s: L3, p: Prefix): (o: Option<GroupRef>) {
    if p in s.routes then s.routes[p].group else None
  }

  /** Route `p`, new or not, now points to `o`, in software and in hardware. */
  function PointRoute(s: L3, p: Prefix, o: Option<GroupRef>, refCnt: nat): (t: L3) {
    s.(routes := s.routes[p := Route(o, refCnt, HwOf(s.groups, o))],
       hw := s.hw.(routes := s.hw.routes[p := HwOf(s.groups, o)]))
  }

  function ForgetRoute(s: L3, p: Prefix, hwRoutes: map<Prefix, HwRoute>): (t: L3) {
    s.(routes := s.routes - {p}, hw := s.hw.(routes := hwRoutes))
  }

  /** Pointing a route at a held group turns its old pointer into a held reference. */
  lemma PointRouteKeeps(s: L3, pinned: set<Prefix>, pins: multiset<GroupRef>, p: Prefix,
                        o: Option<GroupRef>, refCnt: nat)
    requires Consistent(s, pinned, pins + Pin(o), {})
    requires refCnt == if p in pinned then 2 else 1
    ensures Consistent(PointRoute(s, p, o, refCnt), pinned, pins + Pin(PointerOf(s, p)), {})
    ensures Table(PointRoute(s, p, o, refCnt)) == Table(s)[p := IdsOf(s.groups, o)]
  {
    assert o.Some? ==> o.value in pins + Pin(o);
    hide HardwareOk, Table;
    PointRouteRefs(s, pinned, pins, p, o, refCnt);
    PointRouteSets(s, pinned, p, o, refCnt);
    assert SlotsOk(PointRoute(s, p, o, refCnt), {});
  }

  lemma PointRouteSets(s: L3, pinned: set<Prefix>, p: Prefix, o: Option<GroupRef>, refCnt: nat)
    requires RoutesOk(s, pinned) && HardwareOk(s) && (o.Some? ==> o.value in s.groups)
    requires refCnt == if p in pinned then 2 else 1
    ensures RoutesOk(PointRoute(s, p, o, refCnt), pinned) && HardwareOk(PointRoute(s, p, o, refCnt))
    ensures Table(PointRoute(s, p, o, refCnt)) == Table(s)[p := IdsOf(s.groups, o)]
  {
    forall r | r in s.groups ensures Programmed(s.hw.nh, s.groups[r]) {}
  }

  lemma PointRouteRefs(s: L3, pinned: set<Prefix>, pins: multiset<GroupRef>, p: Prefix,
                       o: Option<GroupRef>, refCnt: nat)
    requires RefCountsOk(s, pins + Pin(o)) && RoutesOk(s, pinned)
    ensures RefCountsOk(PointRoute(s, p, o, refCnt), pins + Pin(PointerOf(s, p)))
  {
    var t, was := PointRoute(s, p, o, refCnt), PointerOf(s, p);
    forall r | r in s.groups
      ensures s.groups[r].refCnt == |RoutesTo(t.routes, r)| + (pins + Pin(was))[r]
    {
      CountAfterPoint(s.routes, p, t.routes[p], r);
    }
  }

  lemma PinCount(o: Option<GroupRef>, r: GroupRef)
    ensures Pin(o)[r] == if o == Some(r) then 1 else 0
  {
  }

  lemma CountWithout(routes: map<Prefix, Route>, p: Prefix, r: GroupRef)
    ensures |RoutesTo(routes, r)|
         == |RoutesTo(routes - {p}, r)| + (if p in routes && routes[p].group == Some(r) then 1 else 0)
  {
    var rest := RoutesTo(routes - {p}, r);
    if p in routes && routes[p].group == Some(r) {
      assert RoutesTo(routes, r) == rest + {p};
    } else {
      assert RoutesTo(routes, r) == rest;
    }
  }

  lemma CountAfterPoint(routes: map<Prefix, Route>, p: Prefix, route: Route, r: GroupRef)
    ensures |RoutesTo(routes[p := route], r)| + (if p in routes then Pin(routes[p].group) else multiset{})[r]
         == |RoutesTo(routes, r)| + Pin(route.group)[r]
  {
    hide RoutesTo;
    CountWithout(routes, p, r);
    CountWithout(routes[p := route], p, r);
    assert routes[p := route] - {p} == routes - {p};
    PinCount(route.group, r);
    if p in routes { PinCount(routes[p].group, r); }
  }

  lemma ForgetRouteKeeps(s: L3, pins: multiset<GroupRef>, p: Prefix, hwRoutes: map<Prefix, HwRoute>)
    requires Consistent(s, {}, pins, {}) && p in s.routes
    requires hwRoutes == s.hw.routes || hwRoutes == s.hw.routes - {p}
    ensures Consistent(ForgetRoute(s, p, hwRoutes), {}, pins + Pin(s.routes[p].group), {})
    ensures Table(ForgetRoute(s, p, hwRoutes)) == Table(s) - {p}
  {
    ForgetRouteRefs(s, pins, p, hwRoutes);
    ForgetRouteSets(s, p, hwRoutes);
    hide RefCountsOk, HardwareOk, Table;
    assert SlotsOk(ForgetRoute(s, p, hwRoutes), {});
  }

  lemma ForgetRouteRefs(s: L3, pins: multiset<GroupRef>, p: Prefix, hwRoutes: map<Prefix, HwRoute>)
    requires RefCountsOk(s, pins) && RoutesOk(s, {}) && p in s.routes
    ensures RefCountsOk(ForgetRoute(s, p, hwRoutes), pins + Pin(s.routes[p].group))
  {
    var t := ForgetRoute(s, p, hwRoutes);
    forall r | r in s.groups
      ensures s.groups[r].refCnt == |RoutesTo(t.routes, r)| + (pins + Pin(s.routes[p].group))[r]
    {
      CountAfterForget(s.routes, p, r);
    }
  }

  lemma ForgetRouteSets(s: L3, p: Prefix, hwRoutes: map<Prefix, HwRoute>)
    requires HardwareOk(s) && p in s.routes && (hwRoutes == s.hw.routes || hwRoutes == s.hw.routes - {p})
    ensures HardwareOk(ForgetRoute(s, p, hwRoutes))
    ensures Table(ForgetRoute(s, p, hwRoutes)) == Table(s) - {p}
  {
    forall r | r in s.groups ensures Programmed(s.hw.nh, s.groups[r]) {}
  }

  lemma CountAfterForget(routes: map<Prefix, Route>, p: Prefix, r: GroupRef)
    requires p in routes
    ensures |RoutesTo(routes, r)| == |RoutesTo(routes - {p}, r)| + Pin(routes[p].group)[r]
  {
    CountWithout(routes, p, r);
    PinCount(routes[p].group, r);
  }

  function Rereference(s: L3, p: Prefix, n: nat): (t: L3)
    requires p in s.routes
  {
    s.(routes := s.routes[p := s.routes[p].(refCnt := n)])
  }

  /** Taking or dropping a caller's reference to a route. */
  lemma RereferenceKeeps(s: L3, p: Prefix, up: bool)
    requires Consistent(s, if up then {} else {p}, multiset{}, {}) && p in s.routes
    ensures s.routes[p].refCnt == if up then 1 else 2
    ensures Consistent(Rereference(s, p, if up then 2 else 1), if up then {p} else {}, multiset{}, {})
    ensures Table(Rereference(s, p, if up then 2 else 1)) == Table(s)
  {
    var t := Rereference(s, p, if up then 2 else 1);
    RereferenceRefs(s, p, t.routes[p].refCnt);
    RereferenceSets(s, p, t.routes[p].refCnt);
    hide RefCountsOk, SlotsOk, HardwareOk, Table;
    assert RoutesOk(t, if up then {p} else {});
  }

  lemma RereferenceSets(s: L3, p: Prefix, n: nat)
    requires HardwareOk(s) && SlotsOk(s, {}) && p in s.routes
    ensures HardwareOk(Rereference(s, p, n)) && SlotsOk(Rereference(s, p, n), {})
    ensures Table(Rereference(s, p, n)) == Table(s)
  {
    var t := Rereference(s, p, n);
    forall r | r in s.groups ensures Programmed(s.hw.nh, s.groups[r]) {}
  }

  lemma RereferenceRefs(s: L3, p: Prefix, n: nat)
    requires RefCountsOk(s, multiset{}) && p in s.routes
    ensures RefCountsOk(Rereference(s, p, n), multiset{})
  {
    forall r | r in s.groups ensures RoutesTo(Rereference(s, p, n).routes, r) == RoutesTo(s.routes, r) {}
  }

  /** A route whose group is gone. */
  ghost predicate Dangling(s: L3) {
    exists q :: q in s.routes && s.routes[q].group.Some? && s.routes[q].group.value !in s.groups
  }

  lemma DanglingBreaks(s: L3)
    requires Dangling(s)
    ensures !Inv(s)
  {
  }

  lemma StillDangling(s: L3, p: Prefix)
    requires Dangling(s) && p in s.routes
    ensures Dangling(Rereference(s, p, 1))
  {
    var q :| q in s.routes && s.routes[q].group.Some? && s.routes[q].group.value !in s.groups;
    var t := Rereference(s, p, 1);
    assert q in t.routes && t.routes[q].group.Some? && t.routes[q].group.value !in t.groups;
  }

  /** The invariant does not look at the software copy of the hardware route. */
  lemma XpRouteKeeps(s: L3, pinned: set<Prefix>, pins: multiset<GroupRef>, p: Prefix, x: HwRoute)
    requires Consistent(s, pinned, pins, {}) && p in s.routes
    ensures var t := s.(routes := s.routes[p := s.routes[p].(xpRoute := x)]);
            && Consistent(t, pinned, pins, {}) && Table(t) == Table(s)
            && (forall r :: RoutesTo(t.routes, r) == RoutesTo(s.routes, r))
  {
    var t := s.(routes := s.routes[p := s.routes[p].(xpRoute := x)]);
    forall r ensures RoutesTo(t.routes, r) == RoutesTo(s.routes, r) {}
  }

  // ---------------------------------------------------------------- reuse and exact groups

  /** A group whose allocation is filled by distinct ids. */
  ghost predicate Exact(g: NhGroup) {
    |Ids(g)| == g.size
  }

  ghost predicate AllExact(s: L3) {
    forall r {:trigger Exact(s.groups[r])} | r in s.groups :: Exact(s.groups[r])
  }

  /** What the lookup accepts as a group for `ids`: same hash, same size, every id found. */
  ghost predicate Matches(g: NhGroup, hash: nat, size: nat, ids: set<NhId>) {
    g.hash == hash && g.size == size && ids <= Ids(g)
  }

  /** The set a route ends up with when `wanted` is installed with allocation `size` and hash `h`:
      that of a matching group if there is one, and the wanted one otherwise. */
  ghost predicate Installed(groups: map<GroupRef, NhGroup>, wanted: set<NhId>, size: nat, h: nat, got: set<NhId>) {
    if exists r :: r in groups && Matches(groups[r], h, size, wanted)
    then exists r :: r in groups && Matches(groups[r], h, size, wanted) && Ids(groups[r]) == got
    else got == wanted
  }

  /** `at` lists some positions of `es` whose ids are not dropped, each once. */
  ghost predicate Listed(es: seq<NhEntry>, drop: set<NhId>, at: seq<nat>) {
    NoDup(at) && SetOf(at) <= KeptAt(es, drop)
  }

  /** `at` lists all of them, in some order. */
  ghost predicate Order(es: seq<NhEntry>, drop: set<NhId>, at: seq<nat>) {
    NoDup(at) && SetOf(at) == KeptAt(es, drop)
  }

  ghost function Pick(es: seq<NhEntry>, at: seq<nat>): (r: seq<NhId>)
  {
    seq(|at|, i requires 0 <= i < |at| => if at[i] < |es| then es[at[i]].id else "")
  }

  function IdsAt(es: seq<NhEntry>, at: set<nat>): (r: set<NhId>)
    requires forall i | i in at :: i < |es|
  {
    set i | i in at :: es[i].id
  }

  lemma ImageBound(es: seq<NhEntry>, at: set<nat>)
    requires forall i | i in at :: i < |es|
    ensures |IdsAt(es, at)| <= |at|
  {
    if at != {} {
      var i :| i in at;
      ImageBound(es, at - {i});
      assert IdsAt(es, at) == IdsAt(es, at - {i}) + {es[i].id};
    } else {
      assert IdsAt(es, at) == {};
    }
  }

  lemma IdsBound(g: NhGroup)
    ensures |Ids(g)| <= |g.entries|
  {
    var all := Span(0, |g.entries|);
    SpanSize(0, |g.entries|);
    ImageBound(g.entries, all);
    assert Ids(g) == IdsAt(g.entries, all) by {
      forall x | x in Ids(g) ensures x in IdsAt(g.entries, all) {
        var e :| e in g.entries && e.id == x;
        var i :| 0 <= i < |g.entries| && g.entries[i] == e;
        assert i in all;
      }
    }
  }

  /** Reuse is right whenever the new group would be exact: a full group of the same size
      that has all the wanted ids has no room for others, whatever the hash function. */
  lemma ExactReuse(s: L3, held: set<nat>, wanted: set<NhId>, r: GroupRef)
    requires SlotsOk(s, held) && r in s.groups && s.groups[r].size == |wanted| && wanted <= Ids(s.groups[r])
    ensures Ids(s.groups[r]) == wanted
  {
    assert GoodGroup(s.groups[r]);
    IdsBound(s.groups[r]);
    SubsetSize(wanted, Ids(s.groups[r]));
  }

  /** The positions of the entries that survive the removal of `drop`. */
  function KeptAt(es: seq<NhEntry>, drop: set<NhId>): (r: set<nat>) {
    set i | 0 <= i < |es| && es[i].id !in drop
  }

  function DroppedAt(es: seq<NhEntry>, drop: set<NhId>): (r: set<nat>) {
    set i | 0 <= i < |es| && es[i].id in drop
  }

  lemma DroppedNext(es: seq<NhEntry>, i: nat, drop: set<NhId>)
    requires i < |es|
    ensures |DroppedAt(es[..i + 1], drop)| == |DroppedAt(es[..i], drop)| + (if es[i].id in drop then 1 else 0)
  {
    var before, after := DroppedAt(es[..i], drop), DroppedAt(es[..i + 1], drop);
    assert forall j | 0 <= j < i :: es[..i][j] == es[..i + 1][j];
    assert after == if es[i].id in drop then before + {i} else before;
  }

  /** One more kept position: one more id, and still no more than there are. */
  lemma ListNext(es: seq<NhEntry>, drop: set<NhId>, at: seq<nat>, i: nat)
    requires Listed(es, drop, at) && i in KeptAt(es, drop) && i !in at
    ensures Listed(es, drop, at + [i]) && |at| + 1 <= |KeptAt(es, drop)|
    ensures Pick(es, at + [i]) == Pick(es, at) + [es[i].id]
  {
    NoDupSize(at + [i]);
    SubsetSize(SetOf(at + [i]), KeptAt(es, drop));
  }

  lemma ListDone(es: seq<NhEntry>, drop: set<NhId>, at: seq<nat>, g: NhGroup)
    requires Order(es, drop, at) && IdSeq(g.entries) == Pick(es, at)
    ensures Ids(g) == IdsAt(es, KeptAt(es, drop)) && |g.entries| == |KeptAt(es, drop)|
  {
    NoDupSize(at);
    assert |IdSeq(g.entries)| == |at|;
    forall x | x in Ids(g) ensures x in IdsAt(es, KeptAt(es, drop)) {
      var i :| 0 <= i < |g.entries| && g.entries[i].id == x;
      assert IdSeq(g.entries)[i] == Pick(es, at)[i] && at[i] in SetOf(at);
    }
    forall k | k in KeptAt(es, drop) ensures es[k].id in Ids(g) {
      assert k in SetOf(at);
      var i :| 0 <= i < |at| && at[i] == k;
      assert IdSeq(g.entries)[i] == Pick(es, at)[i] && g.entries[i] in g.entries;
    }
  }

  lemma KeptCount(es: seq<NhEntry>, drop: set<NhId>)
    ensures |KeptAt(es, drop)| + |DroppedAt(es, drop)| == |es|
  {
    SpanSize(0, |es|);
    assert Span(0, |es|) == KeptAt(es, drop) + DroppedAt(es, drop);
  }

  lemma SplitIds(g: NhGroup, drop: set<NhId>)
    ensures Ids(g) - drop == IdsAt(g.entries, KeptAt(g.entries, drop))
    ensures Ids(g) * drop <= IdsAt(g.entries, DroppedAt(g.entries, drop))
  {
  }

  /** Removing ids from an exact group leaves an exact group. */
  lemma ExactAfterDrop(g: NhGroup, drop: set<NhId>)
    requires GoodGroup(g) && Exact(g)
    ensures |Ids(g) - drop| == g.size - |DroppedAt(g.entries, drop)|
  {
    var es, kept, dropped := g.entries, KeptAt(g.entries, drop), DroppedAt(g.entries, drop);
    IdsBound(g);
    KeptCount(es, drop);
    ImageBound(es, kept);
    ImageBound(es, dropped);
    SplitIds(g, drop);
    SubsetSize(Ids(g) - drop, IdsAt(es, kept));
    SubsetSize(Ids(g) * drop, IdsAt(es, dropped));
    assert Ids(g) == (Ids(g) - drop) + (Ids(g) * drop);
  }

  /** With no reference held elsewhere, every group of the map has a route. */
  lemma HasRoute(s: L3, pinned: set<Prefix>, held: set<nat>, r: GroupRef)
    requires Consistent(s, pinned, multiset{}, held) && r in s.groups
    ensures RoutesTo(s.routes, r) != {}
  {
  }

  lemma PointerFacts(s: L3, pinned: set<Prefix>, pins: multiset<GroupRef>, held: set<nat>, p: Prefix, o: Option<GroupRef>)
    requires Consistent(s, pinned, pins, held)
    requires p in s.routes && (o.None? || o == s.routes[p].group || o.value in pins)
    ensures o.Some? ==> o.value in s.groups && s.groups[o.value].refCnt >= 1 && GoodGroup(s.groups[o.value])
    ensures s.routes[p].refCnt == if p in pinned then 2 else 1
  {
  }

  /** The last three writes of an update, in the order of the code: the hardware route,
      the reference to the old group, the pointer to the new one. */
  function SwapGroup(s: L3, p: Prefix, o: Option<GroupRef>, nh: map<nat, NhId>, destroyed: bool): (t: L3)
    requires p in s.routes
    requires var was := s.routes[p].group; was.Some? ==> was.value in s.groups && s.groups[was.value].refCnt >= 1
  {
    SetGroup(UnrefGroup(s.(hw := s.hw.(routes := s.hw.routes[p := s.routes[p].xpRoute])),
                        s.routes[p].group, nh, destroyed), p, o)
  }

  lemma SwapGroupKeeps(s: L3, p: Prefix, o: Option<GroupRef>, nh: map<nat, NhId>, destroyed: bool)
    requires Consistent(s, {p}, Pin(o), {})
    requires p in s.routes && s.routes[p].xpRoute == HwOf(s.groups, o)
    requires var was := s.routes[p].group; was.Some? ==>
               was.value in s.groups && s.groups[was.value].refCnt >= 1 && SameOutside(nh, s.hw.nh, Slots(s.groups[was.value]))
    ensures Consistent(SwapGroup(s, p, o, nh, destroyed), {p}, multiset{}, {})
    ensures Table(SwapGroup(s, p, o, nh, destroyed)) == Table(s)[p := IdsOf(s.groups, o)]
  {
    hide Consistent, GoodGroup, SameOutside, Table, Slots;
    var was := s.routes[p].group;
    PointerFacts(s, {p}, Pin(o), {}, p, was);
    assert multiset{} + Pin(o) == Pin(o) && multiset{} + Pin(was) == Pin(was);
    PointRouteKeeps(s, {p}, multiset{}, p, o, 2);
    UnrefGroupKeeps(PointRoute(s, p, o, 2), {p}, multiset{}, was, nh, destroyed);
    SwapGroupOrder(s, p, o, nh, destroyed);
  }

  lemma SwapGroupOrder(s: L3, p: Prefix, o: Option<GroupRef>, nh: map<nat, NhId>, destroyed: bool)
    requires p in s.routes && s.routes[p].refCnt == 2 && s.routes[p].xpRoute == HwOf(s.groups, o)
    requires var was := s.routes[p].group; was.Some? ==> was.value in s.groups && s.groups[was.value].refCnt >= 1
    ensures SwapGroup(s, p, o, nh, destroyed)
         == UnrefGroup(PointRoute(s, p, o, 2), s.routes[p].group, nh, destroyed)
  {
  }

  // ---------------------------------------------------------------- groups under construction

  /** nh_lookup() */
  predicate Contains(g: NhGroup, id: NhId)
    ensures Contains(g, id) <==> id in Ids(g)
  {
    exists e :: e in g.entries && e.id == id
  }

  lemma NoEntries(g: NhGroup)
    requires g.entries == []
    ensures Ids(g) == {} && GoodGroup(g)
  {
  }

  lemma NothingListed(hash: (NhId, nat) -> nat, g: NhGroup)
    requires g.entries == [] && g.hash == 0
    ensures Hashed(hash, g) && Order([], {}, []) && IdSeq(g.entries) == Pick([], [])
  {
    assert SetOf<nat>([]) == {} == KeptAt([], {});
  }

  lemma EmptyList(at: seq<nat>)
    requires at == []
    ensures NoDup(at)
  {
  }

  lemma NothingDropped(es: seq<NhEntry>)
    ensures |KeptAt(es, {})| == |es|
  {
    KeptCount(es, {});
    assert DroppedAt(es, {}) == {};
  }

  lemma SlotsSame(g: NhGroup, h: NhGroup)
    requires g.nhId == h.nhId && g.size == h.size
    ensures Slots(g) == Slots(h)
  {
  }

  lemma HoldSpan(s: L3, pinned: set<Prefix>, g: NhGroup)
    requires Consistent(s, pinned, multiset{}, {}) && Slots(g) !! s.hw.inUse
    ensures Consistent(HoldSlots(s, g.nhId, g.size), pinned, multiset{}, Slots(g))
    ensures Table(HoldSlots(s, g.nhId, g.size)) == Table(s)
  {
  }

  lemma FreeHeld(s: L3, pinned: set<Prefix>, g: NhGroup, destroyed: bool)
    requires Consistent(s, pinned, multiset{}, Slots(g))
    ensures Consistent(s.(hw := ReleaseSlots(s.hw, Slots(g), destroyed)), pinned, multiset{}, {})
    ensures Table(s.(hw := ReleaseSlots(s.hw, Slots(g), destroyed))) == Table(s)
  {
  }

  lemma PinFacts(s: L3, pinned: set<Prefix>, r: GroupRef)
    requires Consistent(s, pinned, multiset{r}, {})
    ensures r in s.groups && s.groups[r].refCnt >= 1 && GoodGroup(s.groups[r])
  {
  }

  // ---------------------------------------------------------------- what happens to the groups

  /** The same group, but for its reference count. */
  ghost predicate Alike(g: NhGroup, h: NhGroup) {
    g.entries == h.entries && g.size == h.size && g.hash == h.hash && g.nhId == h.nhId
  }

  /** Every group of `b` is one of `a`, or the new one. */
  ghost predicate Grown(a: map<GroupRef, NhGroup>, b: map<GroupRef, NhGroup>, o: Option<NhGroup>) {
    forall r | r in b :: if r in a then Alike(a[r], b[r]) else o.Some? && Alike(o.value, b[r])
  }

  lemma GrownTrans(a: map<GroupRef, NhGroup>, b: map<GroupRef, NhGroup>, c: map<GroupRef, NhGroup>, o: Option<NhGroup>)
    requires Grown(a, b, o) && Grown(b, c, None)
    ensures Grown(a, c, o)
  {
  }

  lemma UnrefGrown(s: L3, o: Option<GroupRef>, nh: map<nat, NhId>, destroyed: bool)
    requires o.Some? ==> o.value in s.groups && s.groups[o.value].refCnt >= 1
    ensures Grown(s.groups, UnrefGroup(s, o, nh, destroyed).groups, None)
  {
  }

  lemma UnrefRoutes(s: L3, o: Option<GroupRef>, nh: map<nat, NhId>, destroyed: bool)
    requires o.Some? ==> o.value in s.groups && s.groups[o.value].refCnt >= 1
    ensures var t := UnrefGroup(s, o, nh, destroyed); t.routes == s.routes && t.hw.routes == s.hw.routes && t.hash == s.hash
  {
  }

  /** The slots of the group's next hops. */
  ghost predicate Held(g: NhGroup, i: nat) {
    g.nhId <= i < g.nhId + |g.entries|
  }

  /** Nothing is programmed in hardware but the next hops of live groups. */
  ghost predicate Tidy(groups: map<GroupRef, NhGroup>, nh: map<nat, NhId>) {
    forall i | i in nh :: exists r :: r in groups && Held(groups[r], i)
  }

  /** The slots of `g` have been cleared, and nothing has been programmed. */
  ghost predicate Wiped(was: map<nat, NhId>, nh: map<nat, NhId>, g: NhGroup) {
    nh.Keys <= was.Keys && forall i | Held(g, i) :: i !in nh
  }

  lemma TidyAlike(a: map<GroupRef, NhGroup>, b: map<GroupRef, NhGroup>, nh: map<nat, NhId>)
    requires Tidy(a, nh) && forall r | r in a :: r in b && Alike(a[r], b[r])
    ensures Tidy(b, nh)
  {
    forall i | i in nh ensures exists r :: r in b && Held(b[r], i) {
      var r :| r in a && Held(a[r], i);
      assert r in b && Held(b[r], i);
    }
  }

  lemma TidyInserted(a: map<GroupRef, NhGroup>, was: map<nat, NhId>, r: GroupRef, g: NhGroup, nh: map<nat, NhId>)
    requires Tidy(a, was) && r !in a && forall i | i in nh :: i in was || Held(g, i)
    ensures Tidy(a[r := g], nh)
  {
    var b := a[r := g];
    forall i | i in nh ensures exists q :: q in b && Held(b[q], i) {
      if Held(g, i) {
        assert r in b && Held(b[r], i);
      } else {
        var q :| q in a && Held(a[q], i);
        assert q in b && Held(b[q], i);
      }
    }
  }

  lemma TidyDropped(a: map<GroupRef, NhGroup>, was: map<nat, NhId>, r: GroupRef, nh: map<nat, NhId>)
    requires Tidy(a, was) && r in a && Wiped(was, nh, a[r])
    ensures Tidy(a - {r}, nh)
  {
    var b := a - {r};
    forall i | i in nh ensures exists q :: q in b && Held(b[q], i) {
      var q :| q in a && Held(a[q], i);
      assert q in b && Held(b[q], i);
    }
  }

  /** A release that succeeds leaks nothing and leaves nothing behind. */
  lemma UnrefOrderly(s: L3, o: Option<GroupRef>, nh: map<nat, NhId>)
    requires o.Some? ==> o.value in s.groups && s.groups[o.value].refCnt >= 1
    requires o.Some? && s.groups[o.value].refCnt == 1 ==> Wiped(s.hw.nh, nh, s.groups[o.value])
    ensures var t := UnrefGroup(s, o, nh, true);
      t.hw.leaked == s.hw.leaked && (Tidy(s.groups, s.hw.nh) ==> Tidy(t.groups, t.hw.nh))
  {
    hide Tidy, Wiped;
    if Tidy(s.groups, s.hw.nh) && o.Some? {
      if s.groups[o.value].refCnt == 1 {
        TidyDropped(s.groups, s.hw.nh, o.value, nh);
      } else {
        TidyAlike(s.groups, UnrefGroup(s, o, nh, true).groups, s.hw.nh);
      }
    }
  }

  /** Routes other than `p` point where they did. */
  ghost predicate OthersStay(a: map<Prefix, Route>, b: map<Prefix, Route>, p: Prefix) {
    forall q | q != p :: (q in a <==> q in b) && (q in a ==> a[q].group == b[q].group)
  }
}

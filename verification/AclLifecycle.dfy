/** Access lists over their whole life: ids shared by three tables, TCAM entries and interfaces. */
module AclLifecycle {
  import opened Common
  import opened Lists
  import opened AclCompile

  type Uuid = nat
  type Aux = nat

  datatype AclKey = AclKey(table: Table, uuid: Uuid)
  datatype AclEntry = AclEntry(aclId: bv8, numIntfs: int, ruleIds: seq<nat>)
  type Acls = map<AclKey, AclEntry>

  /** An interface seen from one table. */
  datatype Place = Place(table: Table, aux: Aux)
  /** Which list is applied at which place: what the user asked for. */
  type Attached = map<Place, Uuid>

  datatype Bundle = Bundle(ports: seq<nat>, l3: Option<nat>)
  /** The ACL enable bit and id of one port or router interface. */
  datatype HwAcl = HwAcl(enable: bool, id: bv8)
  type Intfs = map<nat, HwAcl>
  const OFF: HwAcl := HwAcl(false, 0)

  /** The vlan/port choice and the L3-only flag of an ingress application. */
  datatype IntfInfo = IntfInfo(vlan: bool, l3Only: bool)
  datatype Status = Success | Unsupported | OtherErr
  datatype Errno = Ok | EPERM

  /** ops_xp_cls_get_type() for ingress */
  function TypeOf(info: IntfInfo): (t: Table)
    ensures t.Pacl? <==> !info.vlan
    ensures t.Racl? <==> info.vlan && info.l3Only
  {
    if !info.vlan then Pacl else if info.l3Only then Racl else Bacl
  }

  /** ops_xp_cls_validate_entries(): the last offending rule is the one reported. */
  method Validate(rules: seq<Rule>, status: Status, entry: nat) returns (s: Status, e: nat)
    ensures Supported(rules) ==> s == status && e == entry
    ensures !Supported(rules) ==> s == Unsupported && e < |rules| && BadRule(rules[e])
                                  && forall i :: e < i < |rules| ==> !BadRule(rules[i])
  {
    s, e := status, entry;
    for i := 0 to |rules|
      invariant (forall j :: 0 <= j < i ==> !BadRule(rules[j])) ==> s == status && e == entry
      invariant !(forall j :: 0 <= j < i ==> !BadRule(rules[j])) ==>
                  s == Unsupported && e < i && BadRule(rules[e]) && forall j :: e < j < i ==> !BadRule(rules[j])
    {
      if BadOp(rules[i].sportOp) { s, e := Unsupported, i; }
      if BadOp(rules[i].dportOp) { s, e := Unsupported, i; }
    }
  }

  // ---------------------------------------------------------------- the invariant, part by part

  /** One list has one id in all tables, and two lists have two ids. */
  ghost predicate SameIds(acls: Acls) {
    forall k, l :: k in acls && l in acls ==> (k.uuid == l.uuid <==> acls[k].aclId == acls[l].aclId)
  }

  ghost function IdsIn(acls: Acls): (r: set<bv8>) {
    set k | k in acls :: acls[k].aclId
  }

  /** Exactly the ids in use are allocated in hardware. */
  ghost predicate IdsOk(acls: Acls, ids: set<bv8>) {
    SameIds(acls) && ids == IdsIn(acls)
  }

  ghost function Users(attached: Attached, k: AclKey): (r: set<Place>) {
    set p | p in attached && p.table == k.table && attached[p] == k.uuid
  }

  /** Each entry counts the interfaces it is applied to; only a pinned one may be unused. */
  ghost predicate CountsOk(acls: Acls, attached: Attached, pinned: set<AclKey>) {
    && (forall p :: p in attached ==> AclKey(p.table, attached[p]) in acls)
    && (forall k :: k in acls ==> acls[k].numIntfs == |Users(attached, k)|)
    && (forall k :: k in acls && k !in pinned ==> acls[k].numIntfs >= 1)
  }

  /** Each entry's list is in its table, and the TCAM holds nothing else. */
  ghost predicate TcamOk(acls: Acls, tcam: Tcam, lists: map<AclKey, seq<Rule>>) {
    && lists.Keys == acls.Keys
    && (forall k :: k in acls ==> Supported(lists[k]))
    && (forall k :: k in acls ==> Programmed(tcam, k.table, lists[k], acls[k].aclId, acls[k].ruleIds))
    && (forall s :: s in tcam ==> exists k :: k in acls && k.table == s.table && s.index in acls[k].ruleIds)
  }

  function Expected(acls: Acls, attached: Attached, p: Place): (h: HwAcl) {
    if p in attached && AclKey(p.table, attached[p]) in acls
    then HwAcl(true, acls[AclKey(p.table, attached[p])].aclId) else OFF
  }

  /** Every port and router interface shows the ACL applied to it. */
  ghost predicate HwOk(acls: Acls, attached: Attached, bundles: map<Aux, Bundle>, ports: Intfs, l3: Intfs) {
    && (forall a :: a in bundles ==> forall i :: 0 <= i < |bundles[a].ports| ==>
          bundles[a].ports[i] in ports && ports[bundles[a].ports[i]] == Expected(acls, attached, Place(Pacl, a)))
    && (forall a :: a in bundles && bundles[a].l3.Some? ==>
          bundles[a].l3.value in l3 && l3[bundles[a].l3.value] == Expected(acls, attached, Place(Racl, a)))
  }

  /** No port and no router interface belongs to two bundles. */
  ghost predicate Separate(bundles: map<Aux, Bundle>) {
    forall a, b :: a in bundles && b in bundles && a != b ==>
      SetOf(bundles[a].ports) !! SetOf(bundles[b].ports)
      && (bundles[a].l3.Some? ==> bundles[a].l3 != bundles[b].l3)
  }

  // ---------------------------------------------------------------- what the invariant gives

  /** Everything in the table that is not this entry's carries another ACL's id. */
  lemma OwnSlots(acls: Acls, ids: set<bv8>, tcam: Tcam, lists: map<AclKey, seq<Rule>>, k: AclKey)
    requires IdsOk(acls, ids) && TcamOk(acls, tcam, lists) && k in acls
    ensures OthersAvoid(tcam, k.table, acls[k].aclId, acls[k].ruleIds)
  {
  }

  /** Two entries of a table share no slot. */
  lemma NoSharedSlot(acls: Acls, ids: set<bv8>, tcam: Tcam, lists: map<AclKey, seq<Rule>>, k: AclKey, l: AclKey)
    requires IdsOk(acls, ids) && TcamOk(acls, tcam, lists) && k in acls && l in acls && k != l && k.table == l.table
    ensures SetOf(acls[k].ruleIds) !! SetOf(acls[l].ruleIds)
  {
  }

  // ---------------------------------------------------------------- keeping it

  function Renumbered(acls: Acls, k: AclKey, n: int): (r: Acls)
    requires k in acls
    ensures r.Keys == acls.Keys && r[k].numIntfs == n
    ensures forall l :: l in acls ==> r[l].aclId == acls[l].aclId && r[l].ruleIds == acls[l].ruleIds
    ensures forall l :: l in acls && l != k ==> r[l] == acls[l]
  {
    acls[k := acls[k].(numIntfs := n)]
  }

  lemma SameIdsAdded(acls: Acls, k: AclKey, e: AclEntry)
    requires SameIds(acls) && k !in acls
    requires (exists l :: l in acls && l.uuid == k.uuid && acls[l].aclId == e.aclId)
             || (forall l :: l in acls ==> acls[l].aclId != e.aclId && l.uuid != k.uuid)
    ensures SameIds(acls[k := e])
  {
  }

  lemma IdsAdded(acls: Acls, ids: set<bv8>, k: AclKey, e: AclEntry)
    requires IdsOk(acls, ids) && k !in acls
    requires (exists l :: l in acls && l.uuid == k.uuid && acls[l].aclId == e.aclId)
             || (e.aclId !in ids && forall l :: l in acls ==> l.uuid != k.uuid)
    ensures IdsOk(acls[k := e], ids + {e.aclId})
  {
    hide SameIds;
    assert forall l :: l in acls ==> acls[l].aclId in ids;
    SameIdsAdded(acls, k, e);
    var r := acls[k := e];
    forall id | id in IdsIn(acls) + {e.aclId} ensures id in IdsIn(r) {
      if id in IdsIn(acls) {
        var l :| l in acls && acls[l].aclId == id;
        assert l in r && r[l].aclId == id;
      } else {
        assert k in r && r[k].aclId == id;
      }
    }
    assert IdsIn(r) == IdsIn(acls) + {e.aclId};
  }

  lemma IdsDropped(acls: Acls, ids: set<bv8>, k: AclKey, shared: bool)
    requires IdsOk(acls, ids) && k in acls
    requires var r := acls - {k}; shared <==> exists l :: l in r && l.uuid == k.uuid && r[l].aclId == acls[k].aclId
    ensures IdsOk(acls - {k}, if shared then ids else ids - {acls[k].aclId})
  {
  }

  lemma UsersAttach(attached: Attached, p: Place, u: Uuid, k: AclKey)
    requires p !in attached
    ensures Users(attached[p := u], k) == Users(attached, k) + (if k == AclKey(p.table, u) then {p} else {})
    ensures p !in Users(attached, k)
  {
  }

  lemma UsersDetach(attached: Attached, p: Place, k: AclKey)
    requires p in attached
    ensures Users(attached - {p}, k) == Users(attached, k) - {p}
    ensures p in Users(attached, k) <==> k == AclKey(p.table, attached[p])
  {
  }

  lemma Reattached(attached: Attached, p: Place, u: Uuid)
    ensures (attached - {p})[p := u] == attached[p := u]
  {
  }

  lemma CountsAttach(acls: Acls, attached: Attached, pinned: set<AclKey>, p: Place, u: Uuid)
    requires AclKey(p.table, u) in acls && p !in attached
    requires CountsOk(acls, attached, pinned)
    ensures var k := AclKey(p.table, u);
            CountsOk(Renumbered(acls, k, acls[k].numIntfs + 1), attached[p := u], pinned - {k})
  {
    hide Users;
    var k := AclKey(p.table, u);
    forall l | l in acls
      ensures |Users(attached[p := u], l)| == |Users(attached, l)| + if l == k then 1 else 0
    {
      UsersAttach(attached, p, u, l);
    }
  }

  lemma CountsDetach(acls: Acls, attached: Attached, p: Place)
    requires p in attached && CountsOk(acls, attached, {})
    ensures var k := AclKey(p.table, attached[p]);
            CountsOk(Renumbered(acls, k, acls[k].numIntfs - 1), attached - {p}, {k})
  {
    hide Users;
    var k := AclKey(p.table, attached[p]);
    forall l | l in acls
      ensures |Users(attached - {p}, l)| == |Users(attached, l)| - if l == k then 1 else 0
    {
      UsersDetach(attached, p, l);
    }
  }

  lemma UnusedDropped(acls: Acls, attached: Attached, k: AclKey)
    requires k in acls && acls[k].numIntfs == 0 && CountsOk(acls, attached, {k})
    ensures CountsOk(acls - {k}, attached, {})
  {
    hide Users;
    forall p | p in attached ensures AclKey(p.table, attached[p]) != k {
      NotUser(attached, k, p);
    }
  }

  /** A pinned entry that is in use needs no pin. */
  lemma Unpinned(acls: Acls, attached: Attached, k: AclKey)
    requires CountsOk(acls, attached, {k}) && k in acls && acls[k].numIntfs != 0
    ensures CountsOk(acls, attached, {})
  {
  }

  /** An entry with one user too many breaks the count. */
  lemma Overcounted(acls: Acls, acls': Acls, attached: Attached, k: AclKey)
    requires CountsOk(acls, attached, {}) && k in acls'
    requires acls'[k].numIntfs == (if k in acls then acls[k].numIntfs else 0) + 1
    ensures !CountsOk(acls', attached, {})
  {
  }

  lemma RenumberedBack(acls: Acls, k: AclKey, n: int)
    requires k in acls
    ensures Renumbered(Renumbered(acls, k, n), k, acls[k].numIntfs) == acls
  {
  }

  lemma NotUser(attached: Attached, k: AclKey, p: Place)
    requires |Users(attached, k)| == 0 && p in attached
    ensures AclKey(p.table, attached[p]) != k
  {
    assert p !in Users(attached, k);
  }

  lemma NewCounted(acls: Acls, attached: Attached, pinned: set<AclKey>, k: AclKey, e: AclEntry)
    requires CountsOk(acls, attached, pinned) && k !in acls && e.numIntfs == 0
    ensures CountsOk(acls[k := e], attached, pinned + {k})
  {
  }

  lemma ListsKeys(acls: Acls, tcam: Tcam, lists: map<AclKey, seq<Rule>>)
    requires TcamOk(acls, tcam, lists)
    ensures lists.Keys == acls.Keys
  {
  }

  lemma TcamRenumbered(acls: Acls, tcam: Tcam, lists: map<AclKey, seq<Rule>>, k: AclKey, n: int)
    requires TcamOk(acls, tcam, lists) && k in acls
    ensures TcamOk(Renumbered(acls, k, n), tcam, lists)
  {
  }

  lemma IdsRenumbered(acls: Acls, ids: set<bv8>, k: AclKey, n: int)
    requires IdsOk(acls, ids) && k in acls
    ensures IdsOk(Renumbered(acls, k, n), ids)
  {
  }

  /** `after` is `before` with the fresh slots `at` of table `t`. */
  ghost predicate Grown(before: Tcam, after: Tcam, t: Table, at: seq<nat>) {
    && (forall s :: s in before ==> s in after && after[s] == before[s])
    && (forall s :: s in after ==> s in before || (s.table == t && s.index in at))
    && (forall i :: 0 <= i < |at| ==> Slot(t, at[i]) !in before)
  }

  ghost function Cut(tcam: Tcam, t: Table, at: seq<nat>): (r: Tcam) {
    map s | s in tcam && !(s.table == t && s.index in at) :: tcam[s]
  }

  lemma ProgrammedKept(before: Tcam, after: Tcam, t: Table, rules: seq<Rule>, id: bv8, at: seq<nat>)
    requires Programmed(before, t, rules, id, at)
    requires forall i :: 0 <= i < |at| ==> Slot(t, at[i]) in after && (Slot(t, at[i]) in before ==>
                         after[Slot(t, at[i])] == before[Slot(t, at[i])])
    ensures Programmed(after, t, rules, id, at)
  {
  }

  lemma TcamAdded(acls: Acls, tcam: Tcam, lists: map<AclKey, seq<Rule>>, k: AclKey, e: AclEntry,
                  rules: seq<Rule>, after: Tcam)
    requires TcamOk(acls, tcam, lists) && k !in acls
    requires Supported(rules)
    requires Grown(tcam, after, k.table, e.ruleIds) && Programmed(after, k.table, rules, e.aclId, e.ruleIds)
    ensures TcamOk(acls[k := e], after, lists[k := rules])
  {
    var r, ls := acls[k := e], lists[k := rules];
    forall l | l in r ensures Programmed(after, l.table, ls[l], r[l].aclId, r[l].ruleIds) {
      if l != k {
        hide EntryFor;
        ProgrammedKept(tcam, after, l.table, lists[l], acls[l].aclId, acls[l].ruleIds);
      }
    }
    hide Programmed;
    forall s | s in after ensures exists l :: l in r && l.table == s.table && s.index in r[l].ruleIds {
      if s in tcam {
        var l :| l in acls && l.table == s.table && s.index in acls[l].ruleIds;
        assert l in r && s.index in r[l].ruleIds;
      } else {
        assert k in r && s.index in r[k].ruleIds;
      }
    }
  }

  lemma TcamDropped(acls: Acls, ids: set<bv8>, tcam: Tcam, lists: map<AclKey, seq<Rule>>, k: AclKey)
    requires IdsOk(acls, ids) && TcamOk(acls, tcam, lists) && k in acls
    ensures TcamOk(acls - {k}, Cut(tcam, k.table, acls[k].ruleIds), lists - {k})
  {
    hide EntryFor;
    var r, ls, after := acls - {k}, lists - {k}, Cut(tcam, k.table, acls[k].ruleIds);
    forall l | l in r ensures Programmed(after, l.table, ls[l], r[l].aclId, r[l].ruleIds) {
      if l.table == k.table { NoSharedSlot(acls, ids, tcam, lists, k, l); }
      assert forall i :: 0 <= i < |acls[l].ruleIds| ==> acls[l].ruleIds[i] in SetOf(acls[l].ruleIds);
      ProgrammedKept(tcam, after, l.table, lists[l], acls[l].aclId, acls[l].ruleIds);
    }
    hide Programmed;
    forall s | s in after ensures exists l :: l in r && l.table == s.table && s.index in r[l].ruleIds {
      var l :| l in acls && l.table == s.table && s.index in acls[l].ruleIds;
      assert l in r && s.index in r[l].ruleIds;
    }
  }

  /** Entries keep the rules they were compiled from, and a new one is compiled from `rules`. */
  ghost predicate Evolved(before: map<AclKey, seq<Rule>>, after: map<AclKey, seq<Rule>>, k: AclKey, rules: seq<Rule>) {
    && k in after && (k !in before ==> after[k] == rules)
    && (forall l :: l in after && l in before ==> after[l] == before[l])
    && (forall l :: l in after ==> l == k || l in before)
  }

  // ---------------------------------------------------------------- interfaces

  /** Every listed interface set to `h`, the others left alone. */
  ghost predicate Wrote(before: Intfs, after: Intfs, who: seq<nat>, h: HwAcl) {
    && after.Keys == before.Keys + SetOf(who)
    && (forall x :: x in after ==> after[x] == if x in who then h else before[x])
  }

  function L3Of(b: Bundle): (r: seq<nat>) {
    if b.l3.Some? then [b.l3.value] else []
  }

  /** A place gets its table's interfaces written; the bridge table has none. */
  ghost predicate Shows(t: Table, b: Bundle, ports: Intfs, l3: Intfs, ports': Intfs, l3': Intfs, h: HwAcl) {
    match t
    case Pacl => Wrote(ports, ports', b.ports, h) && l3' == l3
    case Racl => Wrote(l3, l3', L3Of(b), h) && ports' == ports
    case Bacl => ports' == ports && l3' == l3
  }

  lemma HwFollows(acls: Acls, attached: Attached, acls': Acls, attached': Attached, bundles: map<Aux, Bundle>, p: Place,
                  ports: Intfs, l3: Intfs, ports': Intfs, l3': Intfs)
    requires HwOk(acls, attached, bundles, ports, l3) && Separate(bundles) && p.aux in bundles
    requires Shows(p.table, bundles[p.aux], ports, l3, ports', l3', Expected(acls', attached', p))
    requires forall q :: q != p ==> Expected(acls', attached', q) == Expected(acls, attached, q)
    ensures HwOk(acls', attached', bundles, ports', l3')
  {
    hide Expected;
    forall a, i | a in bundles && 0 <= i < |bundles[a].ports|
      ensures bundles[a].ports[i] in ports'
           && ports'[bundles[a].ports[i]] == Expected(acls', attached', Place(Pacl, a))
    {
      var x := bundles[a].ports[i];
      assert x in SetOf(bundles[a].ports);
      assert x in ports;
      assert a != p.aux ==> x !in SetOf(bundles[p.aux].ports);
    }
    forall a | a in bundles && bundles[a].l3.Some?
      ensures bundles[a].l3.value in l3' && l3'[bundles[a].l3.value] == Expected(acls', attached', Place(Racl, a))
    {
      assert bundles[a].l3.value in l3;
    }
  }

  lemma HwAdded(acls: Acls, attached: Attached, pinned: set<AclKey>, k: AclKey, e: AclEntry,
                bundles: map<Aux, Bundle>, ports: Intfs, l3: Intfs)
    requires HwOk(acls, attached, bundles, ports, l3) && CountsOk(acls, attached, pinned) && k !in acls
    ensures HwOk(acls[k := e], attached, bundles, ports, l3)
  {
  }

  lemma HwDropped(acls: Acls, attached: Attached, k: AclKey, bundles: map<Aux, Bundle>, ports: Intfs, l3: Intfs)
    requires HwOk(acls, attached, bundles, ports, l3) && CountsOk(acls - {k}, attached, {})
    ensures HwOk(acls - {k}, attached, bundles, ports, l3)
  {
  }

  /** Switching a place off and on again with the ACL it had restores every interface. */
  lemma Restored(acls: Acls, attached: Attached, bundles: map<Aux, Bundle>, p: Place, ports: Intfs, l3: Intfs,
                 ports1: Intfs, l31: Intfs, ports2: Intfs, l32: Intfs)
    requires HwOk(acls, attached, bundles, ports, l3) && p.aux in bundles
    requires Shows(p.table, bundles[p.aux], ports, l3, ports1, l31, OFF)
    requires Shows(p.table, bundles[p.aux], ports1, l31, ports2, l32, Expected(acls, attached, p))
    ensures ports2 == ports && l32 == l3
  {
  }

  // ---------------------------------------------------------------- the handlers

  class Classifier {
    const bundles: map<Aux, Bundle>
    /** The three hash maps, as one map with the table in the key. */
    var acls: Acls
    var ids: set<bv8>
    var tcam: Tcam
    var ports: Intfs
    var l3: Intfs
    ghost var attached: Attached
    /** The rules that were compiled for each entry. */
    ghost var lists: map<AclKey, seq<Rule>>

    /** What every call keeps, whatever it is called with. */
    ghost predicate Base()
      reads this
    {
      Separate(bundles) && IdsOk(acls, ids) && TcamOk(acls, tcam, lists)
    }

    ghost predicate Consistent(pinned: set<AclKey>)
      reads this
    {
      Base() && CountsOk(acls, attached, pinned) && HwOk(acls, attached, bundles, ports, l3)
    }

    ghost predicate Inv()
      reads this
    {
      Consistent({})
    }

    constructor (bundles: map<Aux, Bundle>, ports: set<nat>, l3: set<nat>)
      requires Separate(bundles)
      requires forall a :: a in bundles ==> SetOf(bundles[a].ports) <= ports && SetOf(L3Of(bundles[a])) <= l3
      ensures Inv() && attached == map[] && this.bundles == bundles
    {
      this.bundles := bundles;
      acls, ids, tcam, attached, lists := map[], {}, map[], map[], map[];
      this.ports := map x | x in ports :: OFF;
      this.l3 := map x | x in l3 :: OFF;
      assert forall a, i :: a in bundles && 0 <= i < |bundles[a].ports| ==>
                              bundles[a].ports[i] in SetOf(bundles[a].ports);
      assert forall a :: a in bundles && bundles[a].l3.Some? ==> bundles[a].l3.value in SetOf(L3Of(bundles[a]));
    }

    /** ops_xp_cls_create_rule_entry_list() */
    method CreateRules(t: Table, rules: seq<Rule>, id: bv8) returns (at: seq<nat>)
      modifies this`tcam
      ensures Grown(old(tcam), tcam, t, at) && Programmed(tcam, t, rules, id, at)
    {
      hide KeyFor, CmdOf;
      at := [];
      for i := 0 to |rules|
        invariant |at| == i && Grown(old(tcam), tcam, t, at)
        invariant forall j :: 0 <= j < i ==> Slot(t, at[j]) in tcam && tcam[Slot(t, at[j])] == EntryFor(rules, j, id)
      {
        var index := FreeIndex(t);
        var key, cmd := Populate(rules[i], id);
        assert TcamEntry(|rules| - i, key, cmd) == EntryFor(rules, i, id);
        tcam := tcam[Slot(t, index) := TcamEntry(|rules| - i, key, cmd)];
        at := at + [index];
      }
    }

    /** xpsTcamMgrAllocEntry(): some unused index of the table. */
    method FreeIndex(t: Table) returns (index: nat)
      ensures Slot(t, index) !in tcam
    {
      ghost var used := set s | s in tcam :: s.index;
      ghost var b := UpperBound(used);
      assert forall s :: s in tcam ==> s.index in used;
      assert Slot(t, b).index == b;
      index :| Slot(t, index) !in tcam;
    }

    /** ops_xp_cls_destroy_rule_entry_list() */
    method DestroyRules(t: Table, at: seq<nat>)
      modifies this`tcam
      ensures tcam == Cut(old(tcam), t, at)
    {
      for i := 0 to |at|
        invariant tcam == Cut(old(tcam), t, at[..i])
      {
        tcam := tcam - {Slot(t, at[i])};
        assert at[..i + 1] == at[..i] + [at[i]];
      }
      assert at[..|at|] == at;
    }

    ghost predicate Room(u: Uuid)
      reads this
    {
      (exists t :: AclKey(t, u) in acls) || exists id: bv8 :: id !in ids
    }

    /** The id under which the list is already known, searched for in the three tables. */
    method KnownId(u: Uuid) returns (known: Option<bv8>)
      requires IdsOk(acls, ids)
      ensures known.None? ==> forall k :: k in acls ==> k.uuid != u
      ensures known.Some? ==> known.value in ids && exists k :: k in acls && k.uuid == u && acls[k].aclId == known.value
    {
      known := None;
      if AclKey(Pacl, u) in acls { known := Some(acls[AclKey(Pacl, u)].aclId); }
      if AclKey(Bacl, u) in acls { known := Some(acls[AclKey(Bacl, u)].aclId); }
      if AclKey(Racl, u) in acls { known := Some(acls[AclKey(Racl, u)].aclId); }
      forall k | k in acls && k.uuid == u
        ensures k == AclKey(Pacl, u) || k == AclKey(Bacl, u) || k == AclKey(Racl, u)
      {
        match k.table case Pacl => case Bacl => case Racl =>
      }
    }

    /** ops_xp_cls_acl_add() */
    method AclAdd(k: AclKey, rules: seq<Rule>, ghost pinned: set<AclKey>)
      requires Base() && k !in acls && Room(k.uuid) && Supported(rules)
      modifies this`acls, this`ids, this`tcam, this`lists
      ensures Base() && (old(Consistent(pinned)) ==> Consistent(pinned + {k}))
      ensures k in acls && acls == old(acls)[k := acls[k]] && acls[k].numIntfs == 0
      ensures lists == old(lists)[k := rules]
    {
      hide Programmed, Grown, HwOk, IdsOk, CountsOk, TcamOk;
      var known := KnownId(k.uuid);
      var id: bv8;
      ghost var ids0 := ids;
      if known.Some? {
        id := known.value;
      } else {
        id :| id !in ids;
        ids := ids + {id};
      }
      assert ids == ids0 + {id};
      var at := CreateRules(k.table, rules, id);
      var e := AclEntry(id, 0, at);
      IdsAdded(acls, ids0, k, e);
      TcamAdded(acls, old(tcam), lists, k, e, rules, tcam);
      if old(Consistent(pinned)) {
        NewCounted(acls, attached, pinned, k, e);
        HwAdded(acls, attached, pinned, k, e, bundles, ports, l3);
      }
      acls := acls[k := e];
      lists := lists[k := rules];
    }

    /** ops_xp_cls_acl_delete() */
    method AclDelete(k: AclKey)
      requires Base() && k in acls
      modifies this`acls, this`ids, this`tcam, this`lists
      ensures Base() && acls == old(acls) - {k} && lists == old(lists) - {k}
      ensures old(Consistent({k})) && old(acls)[k].numIntfs == 0 ==> Inv()
    {
      hide Programmed, HwOk, IdsOk, CountsOk, TcamOk, Cut;
      DestroyRules(k.table, acls[k].ruleIds);
      if old(Consistent({k})) && acls[k].numIntfs == 0 {
        UnusedDropped(acls, attached, k);
        HwDropped(acls, attached, k, bundles, ports, l3);
      }
      TcamDropped(acls, ids, old(tcam), lists, k);
      var id := acls[k].aclId;
      acls := acls - {k};
      lists := lists - {k};
      var shared := KnownIs(k.uuid, id);
      IdsDropped(old(acls), ids, k, shared);
      if !shared { ids := ids - {id}; }
    }

    /** Whether some table still holds the list under that id. */
    method KnownIs(u: Uuid, id: bv8) returns (known: bool)
      ensures known <==> exists k :: k in acls && k.uuid == u && acls[k].aclId == id
    {
      known := false;
      if AclKey(Pacl, u) in acls && acls[AclKey(Pacl, u)].aclId == id { known := true; }
      if AclKey(Bacl, u) in acls && acls[AclKey(Bacl, u)].aclId == id { known := true; }
      if AclKey(Racl, u) in acls && acls[AclKey(Racl, u)].aclId == id { known := true; }
      forall k | k in acls && k.uuid == u
        ensures k == AclKey(Pacl, u) || k == AclKey(Bacl, u) || k == AclKey(Racl, u)
      {
        match k.table case Pacl => case Bacl => case Racl =>
      }
    }

    // -------------------------------------------------------------- interfaces

    method WritePorts(who: seq<nat>, h: HwAcl)
      modifies this`ports
      ensures Wrote(old(ports), ports, who, h)
    {
      for i := 0 to |who|
        invariant Wrote(old(ports), ports, who[..i], h)
      {
        ports := ports[who[i] := h];
        assert who[..i + 1] == who[..i] + [who[i]];
      }
      assert who[..|who|] == who;
    }

    /** Write enable bit and id to the interfaces the table looks at. */
    method Show(info: IntfInfo, b: Bundle, h: HwAcl)
      requires info.vlan && info.l3Only ==> b.l3.Some?
      modifies this`ports, this`l3
      ensures Shows(TypeOf(info), b, old(ports), old(l3), ports, l3, h)
    {
      if info.vlan {
        if info.l3Only { l3 := l3[b.l3.value := h]; }
      } else {
        WritePorts(b.ports, h);
      }
    }

    ghost predicate Reachable(aux: Aux, info: IntfInfo) {
      aux in bundles && (info.l3Only ==> bundles[aux].l3.Some?)
    }

    /** Is list `u` the one applied at the place? */
    ghost predicate Names(t: Table, aux: Aux, u: Uuid)
      reads this
    {
      Place(t, aux) in attached && attached[Place(t, aux)] == u
    }

    /** Put a programmed list on an interface. */
    method Attach(k: AclKey, aux: Aux, info: IntfInfo, ghost pinned: set<AclKey>)
      requires Base() && Reachable(aux, info) && TypeOf(info) == k.table && k in acls
      modifies this`acls, this`ports, this`l3, this`attached
      ensures Base()
      ensures old(Consistent(pinned)) && Place(k.table, aux) !in old(attached) ==> Consistent(pinned - {k})
      ensures attached == old(attached)[Place(k.table, aux) := k.uuid]
      ensures acls == Renumbered(old(acls), k, old(acls)[k].numIntfs + 1)
      ensures Shows(k.table, bundles[aux], old(ports), old(l3), ports, l3, HwAcl(true, acls[k].aclId))
    {
      hide Programmed, HwOk, IdsOk, CountsOk, TcamOk, Shows, Separate;
      var n := acls[k].numIntfs + 1;
      ghost var p := Place(k.table, aux);
      Show(info, bundles[aux], HwAcl(true, acls[k].aclId));
      IdsRenumbered(acls, ids, k, n);
      TcamRenumbered(acls, tcam, lists, k, n);
      acls := Renumbered(acls, k, n);
      attached := attached[p := k.uuid];
      if old(Consistent(pinned)) && p !in old(attached) {
        CountsAttach(old(acls), old(attached), pinned, p, k.uuid);
        HwFollows(old(acls), old(attached), acls, attached, bundles, p, old(ports), old(l3), ports, l3);
      }
    }

    /** Take the list off the interface; its entry stays, perhaps unused. */
    method Detach(k: AclKey, aux: Aux, info: IntfInfo)
      requires Base() && Reachable(aux, info) && TypeOf(info) == k.table && k in acls
      modifies this`acls, this`ports, this`l3, this`attached
      ensures Base() && (old(Inv() && Names(k.table, aux, k.uuid)) ==> Consistent({k}))
      ensures attached == if old(Names(k.table, aux, k.uuid)) then old(attached) - {Place(k.table, aux)} else old(attached)
      ensures acls == Renumbered(old(acls), k, old(acls)[k].numIntfs - 1)
      ensures Shows(k.table, bundles[aux], old(ports), old(l3), ports, l3, OFF)
    {
      hide Programmed, HwOk, IdsOk, CountsOk, TcamOk, Shows, Separate;
      var n := acls[k].numIntfs - 1;
      ghost var p := Place(k.table, aux);
      Show(info, bundles[aux], OFF);
      IdsRenumbered(acls, ids, k, n);
      TcamRenumbered(acls, tcam, lists, k, n);
      acls := Renumbered(acls, k, n);
      if old(Names(k.table, aux, k.uuid)) {
        attached := attached - {p};
        if old(Inv()) {
          CountsDetach(old(acls), old(attached), p);
          HwFollows(old(acls), old(attached), acls, attached, bundles, p, old(ports), old(l3), ports, l3);
        }
      }
    }

    twostate predicate Unchanged()
      reads this
    {
      && acls == old(acls) && ids == old(ids) && tcam == old(tcam) && ports == old(ports) && l3 == old(l3)
      && attached == old(attached) && lists == old(lists)
    }

    /** ops_xp_cls_apply() */
    method Apply(u: Uuid, rules: seq<Rule>, aux: Aux, info: IntfInfo, status: Status, ghost pinned: set<AclKey>)
        returns (err: Errno, s: Status)
      requires Base() && Room(u)
      modifies this
      ensures Base() && (err == EPERM <==> !Reachable(aux, info))
      ensures s == if err == Ok && !Supported(rules) then Unsupported else status
      ensures err == EPERM || s == Unsupported ==> Unchanged()
      ensures err == Ok && s != Unsupported ==>
                var k, p := AclKey(TypeOf(info), u), Place(TypeOf(info), aux);
                && (old(Consistent(pinned)) ==> (Consistent(pinned - {k}) <==> p !in old(attached)))
                && attached == old(attached)[p := u]
                && Evolved(old(lists), lists, k, rules)
                && Counted(old(acls), acls, k)
    {
      hide Programmed, HwOk, IdsOk, CountsOk, TcamOk, Shows, Separate, Counted, Evolved, Renumbered, Supported;
      s := status;
      if aux !in bundles || (bundles[aux].l3.None? && info.l3Only) {
        return EPERM, s;
      }
      err := Ok;
      var entry;
      s, entry := Validate(rules, s, 0);
      if s == Unsupported {
        return;
      }
      var k := AclKey(TypeOf(info), u);
      if k !in acls {
        AclAdd(k, rules, pinned);
        Attach(k, aux, info, pinned + {k});
        assert pinned + {k} - {k} == pinned - {k};
      } else {
        Attach(k, aux, info, pinned);
      }
      ListsKeys(old(acls), old(tcam), old(lists));
      AppliedOnce(old(acls), acls, old(lists), lists, k, rules);
      if old(Consistent(pinned)) && Place(k.table, aux) in old(attached) {
        AppliedTwice(old(acls), acls, old(attached), pinned, Place(k.table, aux), u, pinned - {k});
      }
    }

    /** ops_xp_cls_remove() */
    method Remove(u: Uuid, aux: Aux, info: IntfInfo) returns (err: Errno)
      requires Inv()
      modifies this
      ensures Base() && (err == EPERM <==> !Reachable(aux, info))
      ensures err == EPERM || AclKey(TypeOf(info), u) !in old(acls) ==> Unchanged()
      ensures err == Ok && AclKey(TypeOf(info), u) in old(acls) ==>
                && (Inv() <==> old(Names(TypeOf(info), aux, u)))
                && (Inv() ==> attached == old(attached) - {Place(TypeOf(info), aux)})
      ensures forall l :: l in lists ==> l in old(lists) && lists[l] == old(lists)[l]
    {
      hide Programmed, HwOk, IdsOk, TcamOk, Shows, Separate, CountsOk;
      if aux !in bundles || (bundles[aux].l3.None? && info.l3Only) {
        return EPERM;
      }
      err := Ok;
      var k := AclKey(TypeOf(info), u);
      if k in acls {
        Detach(k, aux, info);
        if acls[k].numIntfs == 0 {
          AclDelete(k);
        } else if old(Names(k.table, aux, u)) {
          Unpinned(acls, attached, k);
        }
        if !old(Names(k.table, aux, u)) {
          Undercounted(old(acls), acls, attached, attached, k);
        }
      }
    }

    /** Does applying or removing a list at the place write to no interface? */
    ghost predicate Silent(t: Table, aux: Aux) {
      aux in bundles && (t == Bacl || (t == Pacl && bundles[aux].ports == []) || (t == Racl && bundles[aux].l3.None?))
    }

    /** ops_xp_cls_replace(): the status the caller passes in decides between commit and revert. The
        invariant survives exactly if the named list is the one applied at the place (or the call is
        rejected and writes nothing) and no foreign error came in. */
    method Replace(orig: Uuid, u: Uuid, rules: seq<Rule>, aux: Aux, info: IntfInfo, status: Status)
        returns (err: Errno, s: Status)
      requires Inv() && Room(u)
      modifies this
      ensures err == EPERM <==> !Reachable(aux, info)
      ensures var found := err == Ok && AclKey(TypeOf(info), orig) in old(acls);
              var right := old(Names(TypeOf(info), aux, orig));
              && s == (if found && !Supported(rules) then Unsupported else status)
              && (!found ==> Unchanged())
              && (found ==> match s
                    case Success =>
                      && (Inv() <==> right) && attached == old(attached)[Place(TypeOf(info), aux) := u]
                      && Evolved(old(lists), lists, AclKey(TypeOf(info), u), rules)
                    case Unsupported =>
                      && (Inv() <==> right || Silent(TypeOf(info), aux)) && (Inv() ==> Unchanged())
                    case OtherErr => !Inv() && attached == old(attached))
    {
      hide Programmed, HwOk, IdsOk, TcamOk, CountsOk, Shows, Separate, Evolved;
      s := status;
      if aux !in bundles || (bundles[aux].l3.None? && info.l3Only) {
        return EPERM, s;
      }
      err := Ok;
      var k := AclKey(TypeOf(info), orig);
      if k in acls {
        s := Swap(k, u, rules, aux, info, s);
      }
    }

    /** The body of replace for an entry that exists. */
    method Swap(k: AclKey, u: Uuid, rules: seq<Rule>, aux: Aux, info: IntfInfo, status: Status) returns (s: Status)
      requires Inv() && Room(u) && k in acls && k.table == TypeOf(info) && Reachable(aux, info)
      modifies this
      ensures s == if Supported(rules) then status else Unsupported
      ensures s == Unsupported ==>
                && (Inv() <==> old(Names(k.table, aux, k.uuid)) || Silent(k.table, aux)) && (Inv() ==> Unchanged())
      ensures s == OtherErr ==> !Inv() && attached == old(attached)
      ensures s == Success ==>
                && (Inv() <==> old(Names(k.table, aux, k.uuid))) && attached == old(attached)[Place(k.table, aux) := u]
                && Evolved(old(lists), lists, AclKey(k.table, u), rules)
    {
      hide Programmed, HwOk, IdsOk, TcamOk, CountsOk, Shows, Separate, Evolved, Supported, Renumbered, Silent;
      var next := AclKey(k.table, u);
      ghost var p := Place(k.table, aux);
      UsedOnce(acls, attached, k);
      Detach(k, aux, info);
      assert forall t :: AclKey(t, u) in acls <==> AclKey(t, u) in old(acls);
      var e;
      e, s := Apply(u, rules, aux, info, status, {k});
      if s == Success {
        Reattached(old(attached), p, u);
        Commit(k, next);
        if !old(Names(k.table, aux, k.uuid)) {
          ReplacedWrong(old(acls), acls, old(attached), p, u, k);
        }
      } else {
        Revert(k, aux, info, old(acls), old(ids), old(attached), old(ports), old(l3));
        RenumberedBack(old(acls), k, old(acls)[k].numIntfs - 1);
        if s == OtherErr {
          Overcounted(old(acls), acls, attached, next);
        }
      }
    }

    /** Put the old list back on the interface. */
    method Revert(k: AclKey, aux: Aux, info: IntfInfo, ghost acls0: Acls, ghost ids0: set<bv8>,
                  ghost attached0: Attached, ghost ports0: Intfs, ghost l30: Intfs)
      requires HwOk(acls0, attached0, bundles, ports0, l30) && IdsOk(acls0, ids0)
      requires Reachable(aux, info) && k.table == TypeOf(info)
      requires k in acls && k in acls0 && acls[k].aclId == acls0[k].aclId
      modifies this`acls, this`attached, this`ports, this`l3
      ensures acls == Renumbered(old(acls), k, old(acls)[k].numIntfs + 1) && attached == attached0
      ensures Shows(k.table, bundles[aux], ports0, l30, old(ports), old(l3), OFF) ==>
                var right := Place(k.table, aux) in attached0 && attached0[Place(k.table, aux)] == k.uuid;
                && (right || Silent(k.table, aux) ==> ports == ports0 && l3 == l30)
                && (!right && !Silent(k.table, aux) ==> !HwOk(acls0, attached0, bundles, ports, l3))
    {
      hide HwOk, Shows, Renumbered, IdsOk;
      ghost var p := Place(k.table, aux);
      Show(info, bundles[aux], HwAcl(true, acls[k].aclId));
      acls := Renumbered(acls, k, acls[k].numIntfs + 1);
      attached := attached0;
      if Shows(k.table, bundles[aux], ports0, l30, old(ports), old(l3), OFF) {
        if Silent(k.table, aux) {
          NothingShown(k.table, bundles[aux], ports0, l30, old(ports), old(l3), OFF);
          NothingShown(k.table, bundles[aux], old(ports), old(l3), ports, l3, HwAcl(true, acls[k].aclId));
        } else if p in attached0 && attached0[p] == k.uuid {
          Restored(acls0, attached0, bundles, p, ports0, l30, old(ports), old(l3), ports, l3);
        } else {
          WrongShown(acls0, ids0, attached0, bundles, k, aux, old(ports), old(l3), ports, l3);
        }
      }
    }

    /** After the new list is in place: drop the old entry if nothing uses it. */
    method Commit(k: AclKey, next: AclKey)
      requires Base() && k in acls && next in acls && (k == next ==> acls[k].numIntfs != 0)
      modifies this`acls, this`ids, this`tcam, this`lists
      ensures Base() && (old(Consistent({k} - {next})) ==> Inv())
      ensures acls == if old(acls)[k].numIntfs == 0 then old(acls) - {k} else old(acls)
      ensures forall before, rules :: Evolved(before, old(lists), next, rules) ==> Evolved(before, lists, next, rules)
    {
      hide Programmed, HwOk, IdsOk, TcamOk, CountsOk, Separate;
      if acls[k].numIntfs == 0 {
        assert {k} - {next} == {k};
        AclDelete(k);
      } else if old(Consistent({k} - {next})) {
        if k != next {
          assert {k} - {next} == {k};
          Unpinned(acls, attached, k);
        } else {
          assert {k} - {next} == {};
        }
      }
    }
  }

  // ---------------------------------------------------------------- calls that break the counts

  /** What applying a list does to the counts. */
  ghost predicate Counted(before: Acls, after: Acls, k: AclKey) {
    && after.Keys == before.Keys + {k}
    && (forall l :: l in before && l != k ==> after[l] == before[l])
    && after[k].numIntfs == (if k in before then before[k].numIntfs else 0) + 1
    && (k in before ==> after[k] == before[k].(numIntfs := after[k].numIntfs))
  }

  lemma AppliedOnce(acls: Acls, acls': Acls, lists: map<AclKey, seq<Rule>>, lists': map<AclKey, seq<Rule>>,
                    k: AclKey, rules: seq<Rule>)
    requires k in acls' && lists.Keys == acls.Keys
    requires k in acls ==> acls' == Renumbered(acls, k, acls[k].numIntfs + 1) && lists' == lists
    requires k !in acls ==>
      && acls' == acls[k := acls'[k]] && acls'[k].numIntfs == 1 && lists' == lists[k := rules]
    ensures Counted(acls, acls', k) && Evolved(lists, lists', k, rules)
  {
  }

  /** A list applied where there is one already is counted twice, or leaves the old one's count behind. */
  lemma AppliedTwice(acls: Acls, acls': Acls, attached: Attached, pinned: set<AclKey>, p: Place, u: Uuid,
                     pinned': set<AclKey>)
    requires CountsOk(acls, attached, pinned) && p in attached && Counted(acls, acls', AclKey(p.table, u))
    ensures !CountsOk(acls', attached[p := u], pinned')
  {
    var k, l := AclKey(p.table, u), AclKey(p.table, attached[p]);
    if k == l {
      assert attached[p := u] == attached;
    } else {
      assert Users(attached[p := u], l) == Users(attached, l) - {p};
      assert p in Users(attached, l);
    }
  }

  lemma UsedOnce(acls: Acls, attached: Attached, k: AclKey)
    requires CountsOk(acls, attached, {}) && k in acls
    ensures acls[k].numIntfs >= 1
  {
  }

  /** A list taken off a place where it was not is missing where it still is. */
  lemma Undercounted(acls: Acls, acls': Acls, attached: Attached, attached': Attached, k: AclKey)
    requires CountsOk(acls, attached, {}) && k in acls && Users(attached', k) == Users(attached, k)
    requires k in acls' ==> acls'[k].numIntfs == acls[k].numIntfs - 1
    ensures !CountsOk(acls', attached', {})
  {
    if k !in acls' {
      assert |Users(attached, k)| >= 1;
      var q :| q in Users(attached', k);
      assert q in attached' && AclKey(q.table, attached'[q]) == k;
    }
  }

  /** Replacing a list that is not the one at the place loses one of its users or misses the new one. */
  lemma ReplacedWrong(acls: Acls, acls': Acls, attached: Attached, p: Place, u: Uuid, k: AclKey)
    requires CountsOk(acls, attached, {}) && k in acls && k.table == p.table
    requires !(p in attached && attached[p] == k.uuid)
    requires if k.uuid == u then k in acls' && acls'[k].numIntfs == acls[k].numIntfs
             else k in acls' ==> acls'[k].numIntfs == acls[k].numIntfs - 1
    ensures !CountsOk(acls', attached[p := u], {})
  {
    if k.uuid == u {
      assert Users(attached[p := u], k) == Users(attached, k) + {p};
    } else {
      assert Users(attached[p := u], k) == Users(attached, k);
      Undercounted(acls, acls', attached, attached[p := u], k);
    }
  }

  lemma NothingShown(t: Table, b: Bundle, ports: Intfs, l3: Intfs, ports': Intfs, l3': Intfs, h: HwAcl)
    requires Shows(t, b, ports, l3, ports', l3', h)
    requires t == Bacl || (t == Pacl && b.ports == []) || (t == Racl && b.l3.None?)
    ensures ports' == ports && l3' == l3
  {
  }

  /** An interface that shows a list which is not the one applied there contradicts the invariant. */
  lemma WrongShown(acls: Acls, ids: set<bv8>, attached: Attached, bundles: map<Aux, Bundle>, k: AclKey, aux: Aux,
                   ports: Intfs, l3: Intfs, ports': Intfs, l3': Intfs)
    requires IdsOk(acls, ids) && k in acls && aux in bundles
    requires !(Place(k.table, aux) in attached && attached[Place(k.table, aux)] == k.uuid)
    requires k.table == Pacl ==> bundles[aux].ports != []
    requires k.table == Racl ==> bundles[aux].l3.Some?
    requires k.table != Bacl && Shows(k.table, bundles[aux], ports, l3, ports', l3', HwAcl(true, acls[k].aclId))
    ensures !HwOk(acls, attached, bundles, ports', l3')
  {
    var p := Place(k.table, aux);
    assert Expected(acls, attached, p) != HwAcl(true, acls[k].aclId);
    if k.table == Pacl { assert bundles[aux].ports[0] in bundles[aux].ports; }
  }

  // ---------------------------------------------------------------- what the user gets

  /** The table's answer for a packet on an interface with setting `h` is the first matching rule. */
  ghost predicate Decides(tcam: Tcam, t: Table, rules: seq<Rule>, h: HwAcl, p: Packet) {
    var i := FirstMatch(rules, p);
    && h.enable
    && (i == |rules| ==> forall s: Slot :: s in tcam && s.table == t ==> !HitsAt(tcam, s, ProbeOf(p, h.id)))
    && (i < |rules| ==> exists s: Slot ::
          && s.table == t && Wins(tcam, s, ProbeOf(p, h.id))
          && (rules[i].permit ==> tcam[s].cmd == Fwd) && (!rules[i].permit && rules[i].deny ==> tcam[s].cmd == Drop)
          && (!rules[i].permit && !rules[i].deny ==> tcam[s].cmd == Unset))
  }

  lemma EntryDecides(acls: Acls, ids: set<bv8>, tcam: Tcam, lists: map<AclKey, seq<Rule>>, k: AclKey, p: Packet)
    requires IdsOk(acls, ids) && TcamOk(acls, tcam, lists) && k in acls && Plain(lists[k])
    ensures Decides(tcam, k.table, lists[k], HwAcl(true, acls[k].aclId), p)
  {
    hide Programmed, HitsAt, ProbeOf, CmdOf, IdsOk, Wins, Plain, Supported, OthersAvoid;
    OwnSlots(acls, ids, tcam, lists, k);
    ListMeans(tcam, k.table, lists[k], acls[k].aclId, acls[k].ruleIds, p);
    var i := FirstMatch(lists[k], p);
    if i < |lists[k]| {
      AtLength(tcam, k.table, lists[k], acls[k].aclId, acls[k].ruleIds);
      assert Slot(k.table, acls[k].ruleIds[i]).table == k.table;
    }
  }

  lemma AtLength(tcam: Tcam, t: Table, rules: seq<Rule>, id: bv8, at: seq<nat>)
    requires Programmed(tcam, t, rules, id, at)
    ensures |at| == |rules|
  {
  }

  /** In every consistent state, each port of a bundle with an applied list treats every packet as the
      list says, and each router interface likewise; without a list the ACL is off. */
  lemma PacketVerdict(c: Classifier, a: Aux, x: nat, p: Packet)
    requires c.Inv() && a in c.bundles
    ensures x in c.bundles[a].ports ==> x in c.ports && Verdict(c, Place(Pacl, a), c.ports[x], p)
    ensures c.bundles[a].l3 == Some(x) ==> x in c.l3 && Verdict(c, Place(Racl, a), c.l3[x], p)
  {
    hide IdsOk, TcamOk, Users, Decides, Separate, Plain;
    ListsKeys(c.acls, c.tcam, c.lists);
    forall q | q in c.attached
      ensures AclKey(q.table, c.attached[q]) in c.acls
      ensures var k := AclKey(q.table, c.attached[q]);
        && Expected(c.acls, c.attached, q).enable
        && (Plain(c.lists[k]) ==> Decides(c.tcam, q.table, c.lists[k], Expected(c.acls, c.attached, q), p))
    {
      var k := AclKey(q.table, c.attached[q]);
      if Plain(c.lists[k]) { EntryDecides(c.acls, c.ids, c.tcam, c.lists, k, p); }
    }
  }

  ghost predicate Verdict(c: Classifier, q: Place, h: HwAcl, p: Packet)
    reads c
  {
    if q in c.attached
    then
      var k := AclKey(q.table, c.attached[q]);
      k in c.lists && h.enable && (Plain(c.lists[k]) ==> Decides(c.tcam, q.table, c.lists[k], h, p))
    else h == HwAcl(false, 0)
  }

  /** Entries exist exactly for the lists that are applied somewhere in their table. */
  lemma InUse(acls: Acls, attached: Attached)
    requires CountsOk(acls, attached, {})
    ensures acls.Keys == set p | p in attached :: AclKey(p.table, attached[p])
  {
  }

  /** Taking every list off every interface gives back every id and every TCAM entry. */
  lemma AllReleased(c: Classifier)
    requires c.Inv() && c.attached == map[]
    ensures c.acls == map[] && c.ids == {} && c.tcam == map[]
  {
  }

  /** Replacing list 7 by list 8 on a port, with an error status other than "unsupported" passed in:
      list 8 keeps an entry that counts a user it does not have. */
  method ForeignStatus() returns (c: Classifier)
    ensures fresh(c) && c.Names(Pacl, 0, 7) && !c.Inv()
  {
    hide Programmed, HwOk, TcamOk, CountsOk;
    assert SetOf([1]) == {1} by { assert [1][0] == 1; }
    c := new Classifier(map[0 := Bundle([1], None)], {1}, {});
    var info := IntfInfo(false, false);
    NothingApplied(c.acls, c.attached);
    FreeId(c.acls, c.ids, AclKey(Pacl, 7));
    var err, s := c.Apply(7, [], 0, info, Success, {});
    assert {} - {AclKey(Pacl, 7)} == {};
    FreeId(c.acls, c.ids, AclKey(Pacl, 7));
    err, s := c.Replace(7, 8, [], 0, info, OtherErr);
  }

  lemma NothingApplied(acls: Acls, attached: Attached)
    requires CountsOk(acls, attached, {}) && attached == map[]
    ensures acls == map[]
  {
    InUse(acls, attached);
    assert acls.Keys == {};
  }

  lemma FreeId(acls: Acls, ids: set<bv8>, k: AclKey)
    requires IdsOk(acls, ids) && acls.Keys <= {k}
    ensures exists id: bv8 :: id !in ids
  {
    var zero: bv8, one: bv8 := 0, 1;
    assert forall id | id in ids :: k in acls && id == acls[k].aclId;
    assert zero !in ids || one !in ids;
  }
}

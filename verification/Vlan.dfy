/** VLAN membership: the VLAN manager's table and the trunk configuration of bundles, which
    arrive in any order. */
module Vlan {
  import opened Common
  import opened Bitmap

  type Vid = nat
  type IntfId = nat
  type Aux = nat

  datatype Errno = OK | ENXIO | EEXIST | EPERM
  datatype Encap = Tagged | Untagged
  datatype Mode = Access | Trunk | NativeTagged | NativeUntagged

  /** VLAN identifiers of section 9.6 of IEEE 802.1Q-2014: 0 and 4095 are not usable. */
  const MIN_VID: nat := 1
  const MAX_VID: nat := 4094
  const DEFAULT_VID: nat := 1

  datatype Entry = Entry(isExisting: bool, members: map<IntfId, Encap>)
  type Table = seq<Entry>

  /** `vlan` is -1 before the first configuration. */
  datatype Bundle = Bundle(intf: IntfId, mode: Mode, vlan: int, trunks: Option<Words>)

  datatype Settings = Settings(mode: Mode, vlan: int, trunks: Option<Words>)

  // ---------------------------------------------------------------- reading the table

  predicate IsValidVid(v: int) {
    MIN_VID <= v <= MAX_VID
  }

  predicate IsExisting(t: Table, v: int)
    requires |t| == BITS
  {
    IsValidVid(v) && t[v].isExisting
  }

  function MemberAt(t: Table, v: Vid, i: IntfId): (r: Option<Encap>)
    requires |t| == BITS && v < BITS
  {
    if i in t[v].members then Some(t[v].members[i]) else None
  }

  /** A VLAN that does not exist has no members. */
  ghost predicate GoodTable(t: Table) {
    && |t| == BITS
    && forall v | 0 <= v < BITS && !IsExisting(t, v) :: !t[v].isExisting && t[v].members == map[]
  }

  /** Nothing changed but, at most, the membership of interface `i`. */
  ghost predicate OnlyIntf(t: Table, u: Table, i: IntfId) {
    && |t| == |u| == BITS
    && (forall v {:trigger u[v]} | 0 <= v < BITS :: u[v].isExisting == t[v].isExisting)
    && forall v, j {:trigger MemberAt(u, v, j)} | 0 <= v < BITS && j != i :: MemberAt(u, v, j) == MemberAt(t, v, j)
  }

  // ---------------------------------------------------------------- what the configuration asks for

  function EncapFor(native: int, mode: Mode, v: Vid): (e: Encap) {
    if native != v || mode == NativeTagged then Tagged else Untagged
  }

  ghost predicate GoodBundle(b: Bundle) {
    && Good(b.trunks)
    && (b.vlan == -1 || IsValidVid(b.vlan))
    && (b.vlan == -1 ==> b.trunks.None?)
  }

  /** The tagging of a VLAN: untagged exactly for the native VLAN of a mode that does not tag it. */
  ghost predicate RightTag(e: Encap, native: int, mode: Mode, v: Vid) {
    e == Untagged <==> v == native && mode != NativeTagged
  }

  /** Membership in `v` as trunks, native VLAN and mode ask for it. */
  ghost predicate RightMember(m: Option<Encap>, trunks: set<Vid>, native: int, mode: Mode, v: Vid) {
    (m.Some? <==> v in trunks) && (m.Some? ==> RightTag(m.value, native, mode, v))
  }

  /** The membership that bundle `b` wants in VLAN `v`. */
  ghost function Want(b: Bundle, v: Vid): (r: Option<Encap>)
    requires Good(b.trunks)
    ensures RightMember(r, BitsOf(b.trunks), b.vlan, b.mode, v)
  {
    if v !in BitsOf(b.trunks) then None
    else if v == b.vlan && b.mode != NativeTagged then Some(Untagged)
    else Some(Tagged)
  }

  ghost predicate AgreesAt(t: Table, b: Bundle, v: Vid)
    requires |t| == BITS && v < BITS && Good(b.trunks)
  {
    IsExisting(t, v) ==> MemberAt(t, v, b.intf) == Want(b, v)
  }

  /** The native VLAN that settings select; the cast to 16 bits is the code's. */
  function NativeOf(s: Settings): (v: Vid)
    ensures 1 <= v <= 4094
    ensures s.mode != Trunk && 1 <= s.vlan <= 4094 ==> v == s.vlan
    ensures s.mode == Trunk || -1 <= s.vlan < 1 || 4094 < s.vlan <= 0xffff ==> v == 1
  {
    var cast := s.vlan % 0x1_0000;
    if s.mode == Trunk || !IsValidVid(cast) then DEFAULT_VID else cast
  }

  ghost function TrunksOf(s: Settings): (r: set<Vid>)
    requires Good(s.trunks)
  {
    match s.mode
    case Access => {NativeOf(s)}
    case Trunk => BitsOf(s.trunks)
    case NativeTagged | NativeUntagged => BitsOf(s.trunks) + {NativeOf(s)}
  }

  // ---------------------------------------------------------------- one VLAN through the reconciliation

  /** The VLANs whose membership is dropped first, because their tagging may change. */
  ghost function Retagged(b: Bundle, native: Vid, mode: Mode, wanted: set<Vid>): (r: set<Vid>)
    requires Good(b.trunks)
  {
    var was := if b.vlan != -1 then b.vlan else DEFAULT_VID;
    if b.trunks.None? || (was == native && b.mode == mode) then {}
    else ({native} * BitsOf(b.trunks)) + (if was >= 0 then {was as nat} * wanted else {})
  }

  /** Writing only the XOR difference, after the retagged VLANs were dropped, is enough. */
  lemma DiffIsEnough(b: Bundle, native: Vid, mode: Mode, wanted: set<Vid>, v: Vid, m: Option<Encap>)
    requires GoodBundle(b) && m == Want(b, v)
    ensures var dropped := Retagged(b, native, mode, wanted);
      var kept := BitsOf(b.trunks) - dropped;
      var m1 := if v in dropped then None else m;
      var m2 := if v in wanted - kept then (if m1.None? then Some(EncapFor(native, mode, v)) else m1)
                else if v in kept - wanted then None else m1;
      m2 == if v in wanted then Some(EncapFor(native, mode, v)) else None
  {
  }

  // ---------------------------------------------------------------- table updates

  function DropMember(t: Table, v: Vid, i: IntfId): (u: Table)
    requires |t| == BITS && v < BITS
  {
    t[v := t[v].(members := t[v].members - {i})]
  }

  /** Interface `i` has left the existing VLANs among `vs`, and nothing else changed. */
  ghost predicate Cleared(t: Table, u: Table, i: IntfId, vs: set<Vid>) {
    && OnlyIntf(t, u, i)
    && forall v | 0 <= v < BITS ::
         MemberAt(u, v, i) == if v in vs && IsExisting(t, v) then None else MemberAt(t, v, i)
  }

  lemma ClearedOne(t: Table, v: Vid, i: IntfId)
    requires |t| == BITS && v < BITS
    ensures Cleared(t, if IsExisting(t, v) then DropMember(t, v, i) else t, i, {v})
  {
  }

  lemma NothingCleared(t: Table, i: IntfId)
    requires |t| == BITS
    ensures Cleared(t, t, i, {})
  {
  }

  lemma ClearedMore(t: Table, u: Table, w: Table, i: IntfId, vs: set<Vid>, ws: set<Vid>)
    requires Cleared(t, u, i, vs) && Cleared(u, w, i, ws)
    ensures Cleared(t, w, i, vs + ws)
  {
  }

  /** The bridge: the table of the VLAN manager and the configured bundles. */
  class Bridge {
    var table: Table
    var bundles: map<Aux, Bundle>

    /** ops_xp_vlan_mgr_create(): no VLAN exists. */
    constructor ()
      ensures Inv(table, bundles) && bundles == map[]
      ensures forall v | 0 <= v < BITS :: !IsExisting(table, v)
    {
      table := seq(BITS, v => Entry(false, map[]));
      bundles := map[];
    }

    // -------------------------------------------------------------- ops-xp-vlan.c

    /** ops_xp_vlan_create() */
    method VlanCreate(v: int) returns (rc: Errno)
      requires GoodTable(table)
      modifies this`table
      ensures GoodTable(table)
      ensures rc == if !(1 <= v <= 4094) then ENXIO else if old(table)[v].isExisting then EEXIST else OK
      ensures rc != OK ==> table == old(table)
      ensures rc == OK ==> table == old(table)[v := Entry(true, map[])]
    {
      if !IsValidVid(v) { return ENXIO; }
      if table[v].isExisting { return EEXIST; }
      assert table[v].members == map[];
      table := table[v := table[v].(isExisting := true)];
      rc := OK;
    }

    /** ops_xp_vlan_remove() */
    method VlanRemove(v: int)
      requires GoodTable(table)
      modifies this`table
      ensures GoodTable(table) && !IsExisting(table, v)
      ensures forall u | 0 <= u < BITS && u != v :: table[u] == old(table)[u]
      ensures !IsExisting(old(table), v) ==> table == old(table)
    {
      if IsExisting(table, v) {
        table := table[v := Entry(false, map[])];
      }
    }

    /** ops_xp_vlan_member_add(): an existing membership is left as it is. */
    method MemberAdd(v: Vid, i: IntfId, e: Encap) returns (rc: Errno)
      requires GoodTable(table)
      modifies this`table
      ensures GoodTable(table) && OnlyIntf(old(table), table, i)
      ensures rc == if IsExisting(old(table), v) then OK else ENXIO
      ensures forall u | 0 <= u < BITS && (u != v || rc != OK) :: table[u] == old(table)[u]
      ensures rc == OK ==>
        MemberAt(table, v, i) == if MemberAt(old(table), v, i).None? then Some(e) else MemberAt(old(table), v, i)
    {
      if !IsExisting(table, v) { return ENXIO; }
      if i !in table[v].members {
        table := table[v := table[v].(members := table[v].members[i := e])];
      }
      rc := OK;
    }

    /** ops_xp_vlan_member_remove() */
    method MemberRemove(v: Vid, i: IntfId) returns (rc: Errno)
      requires GoodTable(table)
      modifies this`table
      ensures GoodTable(table)
      ensures rc == if IsExisting(old(table), v) then OK else ENXIO
      ensures table == if IsExisting(old(table), v) then DropMember(old(table), v, i) else old(table)
    {
      if !IsExisting(table, v) { return ENXIO; }
      assert i !in table[v].members ==> table[v].members - {i} == table[v].members;
      if i in table[v].members {
        table := table[v := table[v].(members := table[v].members - {i})];
      }
      rc := OK;
    }

    /** ops_xp_vlan_port_clear_all_membership() */
    method ClearAll(i: IntfId)
      requires GoodTable(table)
      modifies this`table
      ensures GoodTable(table) && OnlyIntf(old(table), table, i)
      ensures forall v | 0 <= v < BITS :: MemberAt(table, v, i) == None
    {
      for v := MIN_VID to MAX_VID + 1
        invariant GoodTable(table) && OnlyIntf(old(table), table, i)
        invariant forall u | 0 <= u < v :: MemberAt(table, u, i) == None
      {
        assert !IsExisting(table, v) ==> table[v].members == map[];
        ghost var before := table;
        if IsExisting(table, v) {
          var _ := MemberRemove(v, i);
        }
        assert OnlyIntf(before, table, i);
        OnlyIntfTrans(old(table), before, table, i);
        assert MemberAt(table, v, i) == None;
        forall u | 0 <= u < v ensures MemberAt(table, u, i) == None {
          assert table[u] == before[u] && MemberAt(before, u, i) == None;
        }
      }
      forall u | MAX_VID < u < BITS ensures MemberAt(table, u, i) == None {
        assert !IsExisting(table, u);
      }
    }

    // -------------------------------------------------------------- bundle_update_vlan_config()

    /** Lines 1240-1267: drop what may need another tag, so that the XOR sees it. */
    method DropRetagged(b0: Bundle, native: Vid, mode: Mode, wanted: Words) returns (b: Bundle)
      requires GoodTable(table) && GoodBundle(b0) && IsValidVid(native) && |wanted| == WORDS
      modifies this`table
      ensures GoodTable(table) && Good(b.trunks) && b == b0.(trunks := b.trunks)
      ensures b.trunks.Some? <==> b0.trunks.Some?
      ensures var dropped := Retagged(b0, native, mode, Bits(wanted));
        BitsOf(b.trunks) == BitsOf(b0.trunks) - dropped && Cleared(old(table), table, b0.intf, dropped)
    {
      hide IsSet, Cleared;
      b := b0;
      ghost var t0 := table;
      var was := if b0.vlan != -1 then b0.vlan else DEFAULT_VID;
      ghost var first: set<Vid>, second: set<Vid> := {}, {};
      NothingCleared(table, b0.intf);
      if b0.trunks.Some? && (was != native || b0.mode != mode) {
        var t := b0.trunks.value;
        if IsSet(t, native) {
          first := {native};
          Set0Bits(t, native);
          t := Set0(t, native);
          LeaveVlan(native, b0.intf);
        }
        ghost var t1 := table;
        NothingCleared(t1, b0.intf);
        if IsSet(wanted, was) {
          second := {was as nat};
          Set0Bits(t, was);
          t := Set0(t, was);
          LeaveVlan(was, b0.intf);
        }
        ClearedMore(t0, t1, table, b0.intf, first, second);
        b := b0.(trunks := Some(t));
      }
      assert Retagged(b0, native, mode, Bits(wanted)) == first + second;
    }

    method LeaveVlan(v: Vid, i: IntfId)
      requires GoodTable(table) && v < BITS
      modifies this`table
      ensures GoodTable(table) && Cleared(old(table), table, i, {v})
    {
      ClearedOne(table, v, i);
      if IsExisting(table, v) {
        var _ := MemberRemove(v, i);
      }
    }

    /** Lines 1313-1351: walk the difference and add or remove the interface. */
    method WriteDiff(i: IntfId, native: Vid, mode: Mode, diff: Words, wanted: Words)
      requires GoodTable(table) && |diff| == WORDS && |wanted| == WORDS
      modifies this`table
      ensures GoodTable(table) && OnlyIntf(old(table), table, i)
      ensures forall v | 0 <= v < BITS && IsExisting(old(table), v) ::
        MemberAt(table, v, i)
        == (var m := MemberAt(old(table), v, i);
            if v !in Bits(diff) then m
            else if v !in Bits(wanted) then None
            else if m.None? then Some(EncapFor(native, mode, v)) else m)
    {
      hide IsSet;
      for vid := 0 to BITS
        invariant GoodTable(table) && OnlyIntf(old(table), table, i)
        invariant forall v | vid <= v < BITS :: table[v] == old(table)[v]
        invariant forall v | 0 <= v < vid && IsExisting(old(table), v) ::
          MemberAt(table, v, i)
          == (var m := MemberAt(old(table), v, i);
              if v !in Bits(diff) then m
              else if v !in Bits(wanted) then None
              else if m.None? then Some(EncapFor(native, mode, v)) else m)
      {
        ghost var before := table;
        if IsSet(diff, vid) && IsExisting(table, vid) {
          if IsSet(wanted, vid) {
            var _ := MemberAdd(vid, i, EncapFor(native, mode, vid));
          } else {
            var _ := MemberRemove(vid, i);
          }
        }
        assert OnlyIntf(before, table, i);
        OnlyIntfTrans(old(table), before, table, i);
        assert forall v | 0 <= v < BITS && v != vid :: table[v] == before[v];
      }
    }

    /** bundle_update_vlan_config(), for SDK calls that succeed. `rewrite` is the LAG case, which
        goes through the difference even when there is none. */
    method UpdateVlanConfig(aux: Aux, s: Settings, rewrite: bool)
      requires GoodTable(table) && aux in bundles && GoodBundle(bundles[aux]) && Good(s.trunks)
      modifies this
      ensures GoodTable(table) && OnlyIntf(old(table), table, old(bundles)[aux].intf)
      ensures exists b :: && bundles == old(bundles)[aux := b] && GoodBundle(b) && b.intf == old(bundles)[aux].intf
                          && b.mode == s.mode && b.vlan == NativeOf(s) && BitsOf(b.trunks) == TrunksOf(s)
      ensures forall v | 0 <= v < BITS && old(AgreesAt(table, bundles[aux], v)) :: AgreesAt(table, bundles[aux], v)
      ensures forall v | 1 <= v <= 4094 && old(AgreesAt(table, bundles[aux], v)) && table[v].isExisting ::
        var m := MemberAt(table, v, old(bundles)[aux].intf);
        && (m.Some? <==> v in TrunksOf(s))
        && (m.Some? ==> (m.value == Untagged <==> v == NativeOf(s) && s.mode != NativeTagged))
    {
      hide IsSet;
      var b0 := bundles[aux];
      var native := NativeOf(s);
      var wanted := WantedTrunks(s);
      var b := DropRetagged(b0, native, s.mode, wanted);
      ghost var t1 := table;
      ghost var kept := BitsOf(b.trunks);
      if !Equal(Some(wanted), b.trunks) || rewrite {
        var diff := Xor(Some(wanted), b.trunks);
        WriteDiff(b0.intf, native, s.mode, diff.value, wanted);
        b := b.(trunks := Some(wanted));
      }
      b := b.(mode := s.mode, vlan := native);
      bundles := bundles[aux := b];
      assert BitsOf(b.trunks) == Bits(wanted);
      UpdateAgrees(old(table), t1, table, b0, b, native, s.mode, Bits(wanted), kept);
    }

    // -------------------------------------------------------------- whole runs

    /** ofproto_xpliant_set_vlan(), add: the new VLAN is offered to every bundle that trunks it. */
    method AddVlan(vid: Vid) returns (rc: Errno)
      requires Inv(table, bundles) && vid < BITS
      modifies this`table
      ensures Inv(table, bundles)
      ensures vid != DEFAULT_VID ==>
        rc == if !(1 <= vid <= 4094) then ENXIO else if old(table)[vid].isExisting then EEXIST else OK
      ensures vid != DEFAULT_VID && rc != OK ==> table == old(table)
      ensures rc == OK ==> IsExisting(table, vid) || vid == DEFAULT_VID
      ensures forall v | 0 <= v < BITS && v != vid :: table[v] == old(table)[v]
      ensures rc == OK && vid != 1 ==> forall a | a in bundles ::
        && Good(bundles[a].trunks)
        && var m := MemberAt(table, vid, bundles[a].intf);
           && (m.Some? <==> vid in BitsOf(bundles[a].trunks))
           && (m.Some? ==> (m.value == Untagged <==> vid == bundles[a].vlan && bundles[a].mode != NativeTagged))
      ensures vid == 1 ==> rc == if !old(table)[1].isExisting && Trunked(bundles, 1) then EPERM else OK
      ensures vid == 1 && rc == OK ==> forall a | a in bundles && Good(bundles[a].trunks) ::
        var m, was := MemberAt(table, 1, bundles[a].intf), MemberAt(old(table), 1, bundles[a].intf);
        if was.Some? then m == was
        else && (m.Some? <==> 1 in BitsOf(bundles[a].trunks))
             && (m.Some? ==> (m.value == Untagged <==> bundles[a].vlan == 1 && bundles[a].mode != NativeTagged))
    {
      hide IsSet, ExactAt, GoodBundle;
      if vid != DEFAULT_VID {
        rc := VlanCreate(vid);
        if rc != OK { return; }
      }
      ghost var t0 := table;
      var todo := bundles.Keys;
      ghost var done: set<Aux> := {};
      while todo != {}
        invariant GoodTable(table) && todo <= bundles.Keys && done == bundles.Keys - todo
        invariant forall v | 0 <= v < BITS && v != vid :: table[v] == t0[v]
        invariant vid != DEFAULT_VID ==> Offered(table, bundles, vid, done)
        invariant vid == DEFAULT_VID ==> Topped(t0, table, bundles, vid, done)
        invariant !IsExisting(t0, vid) ==> !Trunking(bundles, vid, done)
        decreases todo
      {
        var aux :| aux in todo;
        todo := todo - {aux};
        var b := bundles[aux];
        BundleFacts(bundles, aux);
        ghost var before := table;
        if b.trunks.Some? && IsSet(b.trunks.value, vid) {
          var status := MemberAdd(vid, b.intf, EncapFor(b.vlan, b.mode, vid));
          if status != OK {
            assert vid == DEFAULT_VID && aux in bundles;
            SameElsewhere(old(table), table, bundles, vid);
            return EPERM;
          }
        }
        if vid != DEFAULT_VID { OfferOne(before, table, bundles, vid, done, aux); }
        if vid == DEFAULT_VID { TopOne(t0, before, table, bundles, vid, done, aux); }
        done := done + {aux};
      }
      if vid != DEFAULT_VID { OfferedAll(table, bundles, vid); }
      SameElsewhere(old(table), table, bundles, vid);
      forall a | a in bundles && vid != DEFAULT_VID
        ensures Good(bundles[a].trunks)
        ensures RightMember(MemberAt(table, vid, bundles[a].intf), BitsOf(bundles[a].trunks), bundles[a].vlan, bundles[a].mode, vid)
      {
        MembersAre(table, bundles, a, vid);
      }
      rc := OK;
    }

    /** ofproto_xpliant_set_vlan(), delete: every bundle that trunks it leaves, then the VLAN goes. */
    method DeleteVlan(vid: Vid) returns (rc: Errno)
      requires Inv(table, bundles) && vid < BITS
      modifies this`table
      ensures Inv(table, bundles)
      ensures vid != DEFAULT_VID ==> !IsExisting(table, vid)
      ensures vid != DEFAULT_VID && !IsExisting(old(table), vid) ==> table == old(table)
      ensures rc == if !IsExisting(old(table), vid) && Trunked(bundles, vid) then EPERM else OK
      ensures vid == 1 ==> table[1].isExisting == old(table)[1].isExisting
      ensures vid == 1 && rc == OK ==> forall a | a in bundles && Good(bundles[a].trunks) ::
        MemberAt(table, 1, bundles[a].intf)
        == if 1 in BitsOf(bundles[a].trunks) then None else MemberAt(old(table), 1, bundles[a].intf)
      ensures forall v | 0 <= v < BITS && v != vid :: table[v] == old(table)[v]
    {
      hide IsSet, ExactAt, GoodBundle;
      ghost var there := IsExisting(table, vid);
      var todo := bundles.Keys;
      if there && vid != DEFAULT_VID { StartLeaving(table, bundles, vid); }
      while todo != {}
        invariant GoodTable(table) && todo <= bundles.Keys && IsExisting(table, vid) == there
        invariant forall v | 0 <= v < BITS && v != vid :: table[v] == old(table)[v]
        invariant !there ==> table == old(table)
        invariant there && vid != DEFAULT_VID ==> Leaving(table, bundles, vid, todo)
        invariant there ==> Quit(old(table), table, bundles, vid, todo)
        invariant !there ==> !Trunking(bundles, vid, bundles.Keys - todo)
        decreases todo
      {
        var aux :| aux in todo;
        ghost var before, was := table, todo;
        todo := todo - {aux};
        var b := bundles[aux];
        BundleFacts(bundles, aux);
        if b.trunks.Some? && IsSet(b.trunks.value, vid) {
          var status := MemberRemove(vid, b.intf);
          if status != OK {
            SameElsewhere(old(table), table, bundles, vid);
            return EPERM;
          }
        }
        if there && vid != DEFAULT_VID { LeaveOne(before, table, bundles, vid, was, aux); }
        if there { QuitOne(old(table), before, table, bundles, vid, was, aux); }
      }
      if vid != DEFAULT_VID {
        assert there ==> table[vid].members == map[];
        if !IsExisting(table, vid) || table[vid].members == map[] {
          VlanRemove(vid);
        }
      }
      SameElsewhere(old(table), table, bundles, vid);
      rc := OK;
    }

    /** A bundle's new VLAN configuration keeps every VLAN exact. */
    method Reconfigure(aux: Aux, s: Settings, rewrite: bool)
      requires Inv(table, bundles) && aux in bundles && Good(s.trunks)
      modifies this
      ensures Inv(table, bundles) && bundles.Keys == old(bundles).Keys
      ensures forall a | a in bundles && a != aux :: bundles[a] == old(bundles)[a]
      ensures var b := bundles[aux];
        && b.intf == old(bundles)[aux].intf && b.mode == s.mode && b.vlan == NativeOf(s)
        && Good(b.trunks) && BitsOf(b.trunks) == TrunksOf(s)
      ensures forall v | 0 <= v < BITS :: IsExisting(table, v) == IsExisting(old(table), v)
      ensures forall v | 2 <= v <= 4094 && table[v].isExisting ::
        var m := MemberAt(table, v, old(bundles)[aux].intf);
        && (m.Some? <==> v in TrunksOf(s))
        && (m.Some? ==> (m.value == Untagged <==> v == NativeOf(s) && s.mode != NativeTagged))
    {
      hide ExactAt, BitsOf, TrunksOf, Want;
      UpdateVlanConfig(aux, s, rewrite);
      ReconfiguredExact(old(table), table, old(bundles), bundles, aux);
      forall v | 2 <= v <= 4094 && table[v].isExisting
        ensures RightMember(MemberAt(table, v, old(bundles)[aux].intf), TrunksOf(s), NativeOf(s), s.mode, v)
      {
        MembersAre(table, bundles, aux, v);
      }
    }

    /** A new bundle has no VLAN configuration yet. */
    method AddBundle(aux: Aux, intf: IntfId)
      requires Inv(table, bundles) && aux !in bundles && forall a | a in bundles :: bundles[a].intf != intf
      modifies this`bundles
      ensures Inv(table, bundles) && bundles == old(bundles)[aux := Bundle(intf, Access, -1, None)]
    {
      bundles := bundles[aux := Bundle(intf, Access, -1, None)];
      forall v | 0 <= v < BITS && v != DEFAULT_VID && IsExisting(table, v) ensures ExactAt(table, bundles, v) {
        assert ExactAt(table, old(bundles), v);
        WiderExact(table, old(bundles), bundles, v, aux);
      }
    }

    /** bundle_destroy(): the interface leaves every VLAN. */
    method DestroyBundle(aux: Aux)
      requires Inv(table, bundles) && aux in bundles
      modifies this
      ensures Inv(table, bundles) && bundles == old(bundles) - {aux}
      ensures forall v | 0 <= v < BITS :: IsExisting(table, v) == IsExisting(old(table), v)
    {
      ClearAll(bundles[aux].intf);
      bundles := bundles - {aux};
      forall v | 0 <= v < BITS && v != DEFAULT_VID && IsExisting(table, v) ensures ExactAt(table, bundles, v) {
        assert table[v].isExisting == old(table)[v].isExisting;
        assert ExactAt(old(table), old(bundles), v);
        NarrowerExact(old(table), table, old(bundles), v, aux);
      }
      forall v | 0 <= v < BITS ensures IsExisting(table, v) == IsExisting(old(table), v) {
        assert table[v].isExisting == old(table)[v].isExisting;
      }
    }
  }

  // ---------------------------------------------------------------- invariant of whole runs

  ghost predicate ExactAt(t: Table, bundles: map<Aux, Bundle>, v: Vid)
    requires |t| == BITS && v < BITS && GoodBundles(bundles)
  {
    && (forall a | a in bundles :: GoodBundle(bundles[a]) && MemberAt(t, v, bundles[a].intf) == Want(bundles[a], v))
    && forall i | i in t[v].members :: exists a :: a in bundles && bundles[a].intf == i
  }

  ghost predicate GoodBundles(bundles: map<Aux, Bundle>) {
    && (forall a | a in bundles :: GoodBundle(bundles[a]))
    && forall a, b {:trigger bundles[a], bundles[b]} | a in bundles && b in bundles && a != b ::
         bundles[a].intf != bundles[b].intf
  }

  /** Every existing VLAN but the default one has exactly the members its trunk sets ask for. */
  ghost predicate Inv(t: Table, bundles: map<Aux, Bundle>) {
    && GoodTable(t) && GoodBundles(bundles)
    && forall v {:trigger ExactAt(t, bundles, v)} | 0 <= v < BITS && v != DEFAULT_VID && IsExisting(t, v) ::
         ExactAt(t, bundles, v)
  }

  lemma BundleFacts(bundles: map<Aux, Bundle>, a: Aux)
    requires GoodBundles(bundles) && a in bundles
    ensures Good(bundles[a].trunks)
  {
  }

  /** The new VLAN `v` has exactly the members that the bundles in `done` ask for. */
  ghost predicate Offered(t: Table, bundles: map<Aux, Bundle>, v: Vid, done: set<Aux>)
    requires |t| == BITS && v < BITS && GoodBundles(bundles)
  {
    && IsExisting(t, v) && done <= bundles.Keys
    && (forall a | a in bundles :: GoodBundle(bundles[a]) &&
          MemberAt(t, v, bundles[a].intf) == if a in done then Want(bundles[a], v) else None)
    && forall i | i in t[v].members :: exists a :: a in done && bundles[a].intf == i
  }

  lemma OfferOne(t: Table, u: Table, bundles: map<Aux, Bundle>, v: Vid, done: set<Aux>, a: Aux)
    requires |t| == BITS && v < BITS && GoodBundles(bundles) && a in bundles && a !in done
    requires Offered(t, bundles, v, done) && GoodBundle(bundles[a])
    requires var b := bundles[a];
      && OnlyIntf(t, u, b.intf)
      && MemberAt(u, v, b.intf) == if v in BitsOf(b.trunks) then Some(EncapFor(b.vlan, b.mode, v)) else None
    ensures Offered(u, bundles, v, done + {a})
  {
    assert u[v].isExisting == t[v].isExisting;
    forall c | c in bundles && c != a ensures MemberAt(u, v, bundles[c].intf) == MemberAt(t, v, bundles[c].intf) {
      assert bundles[c].intf != bundles[a].intf;
    }
    forall i | i in u[v].members ensures exists c :: c in done + {a} && bundles[c].intf == i {
      if i == bundles[a].intf {
        assert a in done + {a};
      } else {
        assert MemberAt(u, v, i) == MemberAt(t, v, i);
        var c :| c in done && bundles[c].intf == i;
        assert c in done + {a};
      }
    }
  }

  lemma OfferedAll(t: Table, bundles: map<Aux, Bundle>, v: Vid)
    requires |t| == BITS && v < BITS && GoodBundles(bundles) && Offered(t, bundles, v, bundles.Keys)
    ensures ExactAt(t, bundles, v)
  {
  }

  /** Some bundle among `which` trunks the VLAN. */
  ghost predicate Trunking(bundles: map<Aux, Bundle>, v: Vid, which: set<Aux>) {
    exists a :: a in bundles && a in which && Good(bundles[a].trunks) && v in BitsOf(bundles[a].trunks)
  }

  ghost predicate Trunked(bundles: map<Aux, Bundle>, v: Vid) {
    Trunking(bundles, v, bundles.Keys)
  }

  /** The bundles in `done` that trunk `v` and were no members have become members. */
  ghost predicate Topped(t: Table, u: Table, bundles: map<Aux, Bundle>, v: Vid, done: set<Aux>)
    requires |t| == |u| == BITS && v < BITS
  {
    && u[v].isExisting == t[v].isExisting
    && forall a | a in bundles && Good(bundles[a].trunks) ::
         MemberAt(u, v, bundles[a].intf) == var was := MemberAt(t, v, bundles[a].intf);
           if a in done && was.None? then Want(bundles[a], v) else was
  }

  lemma TopOne(t: Table, u: Table, w: Table, bundles: map<Aux, Bundle>, v: Vid, done: set<Aux>, a: Aux)
    requires |t| == |u| == |w| == BITS && v < BITS && GoodBundles(bundles) && a in bundles && a !in done
    requires Topped(t, u, bundles, v, done) && Good(bundles[a].trunks) && OnlyIntf(u, w, bundles[a].intf)
    requires var b, m := bundles[a], MemberAt(u, v, bundles[a].intf);
      MemberAt(w, v, b.intf) == if v in BitsOf(b.trunks) && m.None? then Some(EncapFor(b.vlan, b.mode, v)) else m
    ensures Topped(t, w, bundles, v, done + {a})
  {
    assert w[v].isExisting == u[v].isExisting;
    forall c | c in bundles && c != a ensures MemberAt(w, v, bundles[c].intf) == MemberAt(u, v, bundles[c].intf) {
      assert bundles[c].intf != bundles[a].intf;
    }
  }

  /** The bundles outside `todo` that trunk `v` have left it. */
  ghost predicate Quit(t: Table, u: Table, bundles: map<Aux, Bundle>, v: Vid, todo: set<Aux>)
    requires |t| == |u| == BITS && v < BITS
  {
    && u[v].isExisting == t[v].isExisting
    && forall a | a in bundles && Good(bundles[a].trunks) ::
         MemberAt(u, v, bundles[a].intf)
         == if a !in todo && v in BitsOf(bundles[a].trunks) then None else MemberAt(t, v, bundles[a].intf)
  }

  lemma QuitOne(t: Table, u: Table, w: Table, bundles: map<Aux, Bundle>, v: Vid, todo: set<Aux>, a: Aux)
    requires |t| == |u| == BITS && v < BITS && GoodBundles(bundles) && a in bundles && a in todo
    requires Quit(t, u, bundles, v, todo) && Good(bundles[a].trunks)
    requires w == if v in BitsOf(bundles[a].trunks) then DropMember(u, v, bundles[a].intf) else u
    ensures Quit(t, w, bundles, v, todo - {a})
  {
    forall c | c in bundles && c != a ensures MemberAt(w, v, bundles[c].intf) == MemberAt(u, v, bundles[c].intf) {
      assert bundles[c].intf != bundles[a].intf;
    }
  }

  /** Changing one VLAN keeps the others exact. */
  lemma SameElsewhere(t: Table, u: Table, bundles: map<Aux, Bundle>, v: Vid)
    requires Inv(t, bundles) && GoodTable(u) && v < BITS
    requires forall w | 0 <= w < BITS && w != v :: u[w] == t[w]
    requires v == DEFAULT_VID || !IsExisting(u, v) || ExactAt(u, bundles, v)
    ensures Inv(u, bundles)
  {
    forall w | 0 <= w < BITS && w != DEFAULT_VID && IsExisting(u, w) ensures ExactAt(u, bundles, w) {
      if w != v {
        assert ExactAt(t, bundles, w);
      }
    }
  }

  /** VLAN `v` is exact but that only the bundles in `todo` may still be members. */
  ghost predicate Leaving(t: Table, bundles: map<Aux, Bundle>, v: Vid, todo: set<Aux>)
    requires |t| == BITS && v < BITS && GoodBundles(bundles)
  {
    && todo <= bundles.Keys
    && forall i | i in t[v].members ::
         (exists a :: a in todo && bundles[a].intf == i && GoodBundle(bundles[a]) && v in BitsOf(bundles[a].trunks))
  }

  lemma StartLeaving(t: Table, bundles: map<Aux, Bundle>, v: Vid)
    requires Inv(t, bundles) && v < BITS && v != DEFAULT_VID && IsExisting(t, v)
    ensures Leaving(t, bundles, v, bundles.Keys)
  {
    assert ExactAt(t, bundles, v);
    forall i | i in t[v].members
      ensures exists a :: a in bundles.Keys && bundles[a].intf == i &&
                GoodBundle(bundles[a]) && v in BitsOf(bundles[a].trunks)
    {
      var a :| a in bundles && bundles[a].intf == i;
      assert GoodBundle(bundles[a]) && MemberAt(t, v, i) == Want(bundles[a], v);
    }
  }

  lemma LeaveOne(t: Table, u: Table, bundles: map<Aux, Bundle>, v: Vid, todo: set<Aux>, a: Aux)
    requires |t| == BITS && v < BITS && GoodBundles(bundles) && Leaving(t, bundles, v, todo)
    requires a in todo && a in bundles && Good(bundles[a].trunks)
    requires u == if v in BitsOf(bundles[a].trunks) then DropMember(t, v, bundles[a].intf) else t
    ensures Leaving(u, bundles, v, todo - {a})
  {
  }

  lemma WiderExact(t: Table, before: map<Aux, Bundle>, after: map<Aux, Bundle>, v: Vid, aux: Aux)
    requires |t| == BITS && v < BITS && GoodBundles(before) && GoodBundles(after) && ExactAt(t, before, v)
    requires aux !in before && aux in after && after == before[aux := after[aux]] && after[aux].trunks.None?
    ensures ExactAt(t, after, v)
  {
    forall i | i in t[v].members ensures exists a :: a in after && after[a].intf == i {
      var a :| a in before && before[a].intf == i;
      assert a in after && after[a].intf == i;
    }
    forall a | a in after ensures GoodBundle(after[a]) && MemberAt(t, v, after[a].intf) == Want(after[a], v) {
      if a == aux {
        assert forall c | c in before :: after[c] == before[c] && after[c].intf != after[aux].intf;
      } else {
        assert before[a] == after[a];
      }
    }
  }

  lemma NarrowerExact(t: Table, u: Table, bundles: map<Aux, Bundle>, v: Vid, aux: Aux)
    requires |t| == |u| == BITS && v < BITS && GoodBundles(bundles) && aux in bundles && ExactAt(t, bundles, v)
    requires OnlyIntf(t, u, bundles[aux].intf) && MemberAt(u, v, bundles[aux].intf) == None
    ensures GoodBundles(bundles - {aux}) && ExactAt(u, bundles - {aux}, v)
  {
    var rest := bundles - {aux};
    forall a | a in rest ensures GoodBundle(rest[a]) && MemberAt(u, v, rest[a].intf) == Want(rest[a], v) {
      assert rest[a] == bundles[a] && bundles[a].intf != bundles[aux].intf;
      assert MemberAt(u, v, rest[a].intf) == MemberAt(t, v, rest[a].intf);
    }
    forall i | i in u[v].members ensures exists a :: a in rest && rest[a].intf == i {
      assert MemberAt(u, v, i) == MemberAt(t, v, i);
      var a :| a in bundles && bundles[a].intf == i;
      assert a in rest && rest[a].intf == i;
    }
  }

  lemma ReconfiguredExact(t: Table, u: Table, before: map<Aux, Bundle>, after: map<Aux, Bundle>, aux: Aux)
    requires Inv(t, before) && GoodTable(u) && aux in before && aux in after && after == before[aux := after[aux]]
    requires GoodBundle(after[aux]) && after[aux].intf == before[aux].intf && GoodBundle(before[aux])
    requires OnlyIntf(t, u, before[aux].intf)
    requires forall v | 0 <= v < BITS && AgreesAt(t, before[aux], v) :: AgreesAt(u, after[aux], v)
    ensures Inv(u, after) && forall v | 0 <= v < BITS :: IsExisting(u, v) == IsExisting(t, v)
  {
    forall v | 0 <= v < BITS ensures IsExisting(u, v) == IsExisting(t, v) {
      assert u[v].isExisting == t[v].isExisting;
    }
    forall v | 0 <= v < BITS && v != DEFAULT_VID && IsExisting(u, v) ensures ExactAt(u, after, v) {
      assert ExactAt(t, before, v);
      ReconfiguredAt(t, u, before, after, aux, v);
    }
  }

  lemma ReconfiguredAt(t: Table, u: Table, before: map<Aux, Bundle>, after: map<Aux, Bundle>, aux: Aux, v: Vid)
    requires GoodBundles(before) && GoodBundles(after) && aux in before && aux in after
    requires after == before[aux := after[aux]] && after[aux].intf == before[aux].intf
    requires GoodBundle(after[aux]) && GoodBundle(before[aux])
    requires OnlyIntf(t, u, before[aux].intf) && v < BITS && IsExisting(u, v) && IsExisting(t, v)
    requires ExactAt(t, before, v) && (AgreesAt(t, before[aux], v) ==> AgreesAt(u, after[aux], v))
    ensures ExactAt(u, after, v)
  {
    forall a | a in after ensures GoodBundle(after[a]) && MemberAt(u, v, after[a].intf) == Want(after[a], v) {
      assert a != aux ==> after[a] == before[a] && after[a].intf != before[aux].intf;
    }
    forall i | i in u[v].members ensures exists a :: a in after && after[a].intf == i {
      if i == after[aux].intf {
        assert aux in after;
      } else {
        assert MemberAt(u, v, i) == MemberAt(t, v, i);
        var a :| a in before && before[a].intf == i;
        assert a in after && after[a].intf == i;
      }
    }
  }

  /** In every state of a run, on every existing VLAN but the default one, a bundle's interface is a
      member exactly if the VLAN is in its trunks, and untagged exactly if it is the native VLAN of a
      mode that does not tag it. */
  lemma MembersAre(t: Table, bundles: map<Aux, Bundle>, a: Aux, v: Vid)
    requires Inv(t, bundles) && a in bundles && 2 <= v <= 4094 && t[v].isExisting
    ensures Good(bundles[a].trunks)
    ensures var m := MemberAt(t, v, bundles[a].intf);
      && (m.Some? <==> v in BitsOf(bundles[a].trunks))
      && (m.Some? ==> (m.value == Untagged <==> v == bundles[a].vlan && bundles[a].mode != NativeTagged))
  {
    hide Want;
    assert ExactAt(t, bundles, v);
    assert GoodBundle(bundles[a]);
  }

  /** The order of VLAN creation, deletion and trunk configuration leaves no trace: states with the
      same configured bundles and the same existing VLANs have the same members everywhere but in
      the default VLAN. */
  lemma OrderLeavesNoTrace(t: Table, u: Table, bundles: map<Aux, Bundle>, v: Vid)
    requires Inv(t, bundles) && Inv(u, bundles) && v < BITS && v != DEFAULT_VID
    requires IsExisting(t, v) == IsExisting(u, v)
    ensures t[v].members == u[v].members
  {
    if IsExisting(t, v) {
      assert ExactAt(t, bundles, v) && ExactAt(u, bundles, v);
      forall i ensures MemberAt(t, v, i) == MemberAt(u, v, i) {
        if i in t[v].members || i in u[v].members {
          var a :| a in bundles && bundles[a].intf == i;
          assert MemberAt(t, v, bundles[a].intf) == Want(bundles[a], v);
        }
      }
      assert forall i :: i in t[v].members <==> MemberAt(t, v, i).Some?;
      assert forall i :: i in u[v].members <==> MemberAt(u, v, i).Some?;
    }
  }

  /** Lines 1202-1234 */
  method WantedTrunks(s: Settings) returns (w: Words)
    requires Good(s.trunks)
    ensures |w| == WORDS && Bits(w) == TrunksOf(s)
  {
    EmptyBits();
    match s.mode {
      case Access =>
        Set1Bits(EMPTY, NativeOf(s));
        w := Set1(EMPTY, NativeOf(s));
      case Trunk =>
        w := if s.trunks.Some? then s.trunks.value else EMPTY;
      case NativeTagged | NativeUntagged =>
        w := if s.trunks.Some? then s.trunks.value else EMPTY;
        Set1Bits(w, NativeOf(s));
        w := Set1(w, NativeOf(s));
    }
  }

  /** Membership that agreed with the old configuration agrees with the new one. */
  lemma UpdateAgrees(t0: Table, t1: Table, t2: Table, b0: Bundle, b: Bundle, native: Vid, mode: Mode,
                     wanted: set<Vid>, kept: set<Vid>)
    requires GoodBundle(b0) && Good(b.trunks) && b.intf == b0.intf && b.mode == mode && b.vlan == native
    requires BitsOf(b.trunks) == wanted && kept == BitsOf(b0.trunks) - Retagged(b0, native, mode, wanted)
    requires Cleared(t0, t1, b0.intf, Retagged(b0, native, mode, wanted)) && OnlyIntf(t1, t2, b0.intf)
    requires forall v | 0 <= v < BITS && IsExisting(t1, v) ::
      MemberAt(t2, v, b0.intf)
      == (var m := MemberAt(t1, v, b0.intf);
          if v !in (wanted - kept) + (kept - wanted) then m
          else if v !in wanted then None
          else if m.None? then Some(EncapFor(native, mode, v)) else m)
    ensures forall v | 0 <= v < BITS && AgreesAt(t0, b0, v) :: AgreesAt(t2, b, v)
    ensures OnlyIntf(t0, t2, b0.intf)
  {
    hide Retagged, Want;
    forall v | 0 <= v < BITS && AgreesAt(t0, b0, v) ensures AgreesAt(t2, b, v) {
      assert t1[v].isExisting == t0[v].isExisting && t2[v].isExisting == t1[v].isExisting;
      DiffIsEnough(b0, native, mode, wanted, v, Want(b0, v));
      WantIs(b, v);
    }
    OnlyIntfTrans(t0, t1, t2, b0.intf);
  }

  lemma WantIs(b: Bundle, v: Vid)
    requires Good(b.trunks)
    ensures Want(b, v) == if v in BitsOf(b.trunks) then Some(EncapFor(b.vlan, b.mode, v)) else None
  {
  }

  lemma OnlyIntfTrans(t: Table, u: Table, w: Table, i: IntfId)
    requires OnlyIntf(t, u, i) && OnlyIntf(u, w, i)
    ensures OnlyIntf(t, w, i)
  {
  }
}

/** The software forwarding database, keyed by hardware index, and its agreement with the
    hardware one. */
module MacTable {
  import opened Common
  import EL = EventLog

  datatype FdbEntry = FdbEntry(vlan: nat, mac: Mac, intf: nat, isStatic: bool, vni: nat)

  type Fdb = map<nat, FdbEntry>
  type Key = (nat, Mac)

  datatype Errno = OK | EPERM | ENOENT | EEXIST

  datatype Reason = SaNew | SaMiss | SaMove | OtherReason

  function KeyOf(e: FdbEntry): (k: Key) {
    (e.vlan, e.mac)
  }

  /** Same indexes, and at each index the same entry but possibly for the interface. */
  ghost predicate Agree(sw: Fdb, hw: Fdb) {
    && sw.Keys == hw.Keys
    && forall i | i in sw :: hw[i] == sw[i].(intf := hw[i].intf)
  }

  /** No VLAN/MAC pair appears twice. */
  ghost predicate Unique(t: Fdb) {
    forall i, j {:trigger t[i], t[j]} | i in t && j in t && i != j :: t[i].vlan != t[j].vlan || t[i].mac != t[j].mac
  }

  ghost predicate Inv(sw: Fdb, hw: Fdb) {
    Agree(sw, hw) && Unique(sw)
  }

  /** The VLAN/MAC pairs on whose interface software and hardware disagree. */
  ghost function Disputed(sw: Fdb, hw: Fdb): (r: set<Key>) {
    set i | i in sw && i in hw && sw[i].intf != hw[i].intf :: KeyOf(sw[i])
  }

  function Keys(t: Fdb): (r: set<Key>) {
    set i | i in t :: KeyOf(t[i])
  }

  /** The table has an entry for the MAC in the VLAN. */
  ghost predicate Knows(t: Fdb, vlan: nat, mac: Mac) {
    exists i :: i in t && t[i].vlan == vlan && t[i].mac == mac
  }

  lemma KnowsIs(t: Fdb, k: Key)
    ensures Knows(t, k.0, k.1) <==> k in Keys(t)
  {
    if Knows(t, k.0, k.1) {
      var i :| i in t && t[i].vlan == k.0 && t[i].mac == k.1;
      assert KeyOf(t[i]) == k;
    }
  }

  /** The insert of `e` at `i`, where the entry found there, if any, has moved to `r`. */
  function Placed(t: Fdb, e: FdbEntry, i: nat, r: nat): (u: Fdb)
    requires i != r ==> i in t
  {
    (if i == r then t else t[r := t[i]])[i := e]
  }

  /** The SDK's promise about where an insert may go. */
  ghost predicate Free(t: Fdb, i: nat, r: nat) {
    if i == r then i !in t else i in t && r !in t
  }

  lemma PlacedKeeps(sw: Fdb, hw: Fdb, e: FdbEntry, i: nat, r: nat)
    requires Inv(sw, hw) && Free(hw, i, r) && KeyOf(e) !in Keys(sw)
    ensures Inv(Placed(sw, e, i, r), Placed(hw, e, i, r))
    ensures Keys(Placed(sw, e, i, r)) == Keys(sw) + {KeyOf(e)}
    ensures Disputed(Placed(sw, e, i, r), Placed(hw, e, i, r)) <= Disputed(sw, hw)
  {
    PlacedUnique(sw, e, i, r);
    PlacedDisputed(sw, hw, e, i, r);
  }

  lemma PlacedKeys(t: Fdb, e: FdbEntry, i: nat, r: nat)
    requires Free(t, i, r)
    ensures Keys(Placed(t, e, i, r)) == Keys(t) + {KeyOf(e)}
    ensures forall j | j in Placed(t, e, i, r) && j != i :: KeyOf(Placed(t, e, i, r)[j]) in Keys(t)
  {
    var u := Placed(t, e, i, r);
    forall j | j in t ensures KeyOf(t[j]) in Keys(u) {
      var k := if j == i then r else j;
      assert k in u && u[k] == t[j];
    }
    forall j | j in u && j != i ensures KeyOf(u[j]) in Keys(t) {
      var k := if j == r && i != r then i else j;
      assert k in t && t[k] == u[j];
    }
    assert i in u && u[i] == e;
  }

  lemma PlacedUnique(t: Fdb, e: FdbEntry, i: nat, r: nat)
    requires Unique(t) && Free(t, i, r) && KeyOf(e) !in Keys(t)
    ensures Unique(Placed(t, e, i, r))
    ensures Keys(Placed(t, e, i, r)) == Keys(t) + {KeyOf(e)}
  {
    hide Keys;
    PlacedKeys(t, e, i, r);
    var u := Placed(t, e, i, r);
    forall j, k | j in u && k in u && j != k ensures KeyOf(u[j]) != KeyOf(u[k]) {
      if j != i && k != i {
        var j', k' := if j == r && i != r then i else j, if k == r && i != r then i else k;
        assert t[j'] == u[j] && t[k'] == u[k];
      }
    }
  }

  /** A pair that was there already is there twice. */
  lemma PlacedTwice(t: Fdb, e: FdbEntry, i: nat, r: nat)
    requires Free(t, i, r) && KeyOf(e) in Keys(t)
    ensures !Unique(Placed(t, e, i, r))
  {
    var u := Placed(t, e, i, r);
    var j :| j in t && KeyOf(t[j]) == KeyOf(e);
    var k := if j == i then r else j;
    assert k in u && i in u && k != i && KeyOf(u[k]) == KeyOf(u[i]);
  }

  lemma PlacedDisputed(sw: Fdb, hw: Fdb, e: FdbEntry, i: nat, r: nat)
    requires Agree(sw, hw) && Free(hw, i, r)
    ensures Disputed(Placed(sw, e, i, r), Placed(hw, e, i, r)) <= Disputed(sw, hw)
  {
  }

  /** The table without the entries of the pairs `ks`. */
  function Drop(t: Fdb, ks: set<Key>): (u: Fdb) {
    map i | i in t && KeyOf(t[i]) !in ks :: t[i]
  }

  lemma DroppedKeeps(sw: Fdb, hw: Fdb, ks: set<Key>)
    requires Inv(sw, hw)
    ensures Inv(Drop(sw, ks), Drop(hw, ks))
    ensures Disputed(Drop(sw, ks), Drop(hw, ks)) <= Disputed(sw, hw) - ks
    ensures Keys(Drop(sw, ks)) == Keys(sw) - ks
  {
    var s, h := Drop(sw, ks), Drop(hw, ks);
    forall k | k in Disputed(s, h) ensures k in Disputed(sw, hw) - ks {
      var j :| j in s && j in h && s[j].intf != h[j].intf && KeyOf(s[j]) == k;
      assert j in sw && j in hw && sw[j] == s[j] && hw[j] == h[j];
    }
    forall k | k in Keys(sw) - ks ensures k in Keys(s) {
      var j :| j in sw && KeyOf(sw[j]) == k;
      assert j in s && s[j] == sw[j];
    }
  }

  /** Dropping indexes is dropping the pairs that were there. */
  lemma DropIndexes(sw: Fdb, hw: Fdb, gone: set<nat>)
    requires Inv(sw, hw) && gone <= sw.Keys
    ensures var ks := Keys(sw) - Keys(sw - gone);
      sw - gone == Drop(sw, ks) && hw - gone == Drop(hw, ks) && Keys(sw - gone) == Keys(sw) - ks
  {
    var rest := sw - gone;
    var ks := Keys(sw) - Keys(rest);
    forall i | i in sw ensures KeyOf(sw[i]) in ks <==> i in gone {
      assert KeyOf(sw[i]) in Keys(sw);
      if i !in gone { assert i in rest && KeyOf(rest[i]) in Keys(rest); }
      assert i in gone ==> forall j | j in rest :: KeyOf(rest[j]) != KeyOf(sw[i]);
    }
    assert forall i | i in hw :: KeyOf(hw[i]) == KeyOf(sw[i]);
  }

  /** Moving an entry to another interface, in software and, if `written`, in hardware. */
  lemma MovedKeeps(sw: Fdb, hw: Fdb, i: nat, intf: nat, written: bool)
    requires Inv(sw, hw) && i in sw
    ensures var s := sw[i := sw[i].(intf := intf)];
      var h := if written then hw[i := s[i]] else hw;
      && Inv(s, h)
      && Disputed(s, h) <= Disputed(sw, hw) - {KeyOf(sw[i])} + (if written then {} else {KeyOf(sw[i])})
      && Keys(s) == Keys(sw)
  {
    var s := sw[i := sw[i].(intf := intf)];
    var h := if written then hw[i := s[i]] else hw;
    forall k | k in Disputed(s, h)
      ensures k in Disputed(sw, hw) - {KeyOf(sw[i])} + (if written then {} else {KeyOf(sw[i])})
    {
      var j :| j in s && j in h && s[j].intf != h[j].intf && KeyOf(s[j]) == k;
      assert j != i ==> j in sw && j in hw && sw[j] == s[j] && hw[j] == h[j];
    }
    assert forall j | j in sw :: j in s && KeyOf(s[j]) == KeyOf(sw[j]);
  }

  // ---------------------------------------------------------------- runs

  datatype State = State(sw: Fdb, hw: Fdb)

  /** What happened, in terms of VLAN/MAC pairs. A move is not `written` if its hardware write and
      then its removal failed. */
  datatype Event = Learned(e: FdbEntry) | Forgotten(ks: set<Key>) | Moved(k: Key, intf: nat, written: bool) | Refused

  /** What an event does to the two tables. */
  ghost predicate Step(s: State, ev: Event, t: State) {
    match ev
    case Learned(e) =>
      && KeyOf(e) !in Keys(s.sw)
      && exists i, r :: Free(s.hw, i, r) && Free(s.sw, i, r)
                        && t == State(Placed(s.sw, e, i, r), Placed(s.hw, e, i, r))
    case Forgotten(ks) => t == State(Drop(s.sw, ks), Drop(s.hw, ks))
    case Moved(k, intf, written) =>
      exists i :: && i in s.sw && KeyOf(s.sw[i]) == k && t.sw == s.sw[i := s.sw[i].(intf := intf)]
                  && t.hw == if written then s.hw[i := t.sw[i]] else s.hw
    case Refused => t == s
  }

  /** The outcomes of moving a pair: it is moved, or given up. */
  ghost predicate MoveOf(ev: Event, k: Key, intf: nat) {
    ev == Forgotten({k}) || (ev.Moved? && ev.k == k && ev.intf == intf)
  }

  /** The table a user sees: no indexes. */
  type Pairs = map<Key, FdbEntry>

  ghost function Contents(t: Fdb): (v: Pairs)
    requires Unique(t)
    ensures v.Keys == Keys(t)
  {
    map i | i in t :: KeyOf(t[i]) := t[i]
  }

  ghost function Apply(v: Pairs, ev: Event): (w: Pairs) {
    match ev
    case Learned(e) => v[KeyOf(e) := e]
    case Forgotten(ks) => v - ks
    case Moved(k, intf, _) => if k in v then v[k := v[k].(intf := intf)] else v
    case Refused => v
  }

  ghost function Replay(v: Pairs, evs: seq<Event>): (w: Pairs) {
    if evs == [] then v else Apply(Replay(v, evs[..|evs| - 1]), evs[|evs| - 1])
  }

  /** What an event does to the pairs on whose interface the tables may disagree. */
  function Settle(before: set<Key>, ev: Event): (r: set<Key>) {
    match ev
    case Forgotten(ks) => before - ks
    case Moved(k, _, written) => if written then before - {k} else before + {k}
    case Learned(_) | Refused => before
  }

  /** Pairs whose last move was not written and that nothing settled since. */
  ghost function Suspects(evs: seq<Event>): (r: set<Key>) {
    if evs == [] then {} else Settle(Suspects(evs[..|evs| - 1]), evs[|evs| - 1])
  }

  lemma ContentsAt(t: Fdb, i: nat)
    requires Unique(t) && i in t
    ensures KeyOf(t[i]) in Contents(t) && Contents(t)[KeyOf(t[i])] == t[i]
  {
  }

  /** A map with the pairs of `t` and their entries is its contents. */
  lemma ContentsIs(t: Fdb, v: Pairs)
    requires Unique(t) && v.Keys == Keys(t) && forall i | i in t :: KeyOf(t[i]) in v && v[KeyOf(t[i])] == t[i]
    ensures v == Contents(t)
  {
    forall k | k in v ensures v[k] == Contents(t)[k] {
      var i :| i in t && KeyOf(t[i]) == k;
      ContentsAt(t, i);
    }
  }

  lemma LearnedContents(t: Fdb, e: FdbEntry, i: nat, r: nat)
    requires Unique(t) && Free(t, i, r) && KeyOf(e) !in Keys(t) && Unique(Placed(t, e, i, r))
    ensures Contents(Placed(t, e, i, r)) == Contents(t)[KeyOf(e) := e]
  {
    hide Keys, Contents;
    PlacedKeys(t, e, i, r);
    var u, v := Placed(t, e, i, r), Contents(t)[KeyOf(e) := e];
    forall j | j in u ensures KeyOf(u[j]) in v && v[KeyOf(u[j])] == u[j] {
      if j != i { ContentsAt(t, if j == r && i != r then i else j); }
    }
    ContentsIs(u, v);
  }

  lemma ForgottenContents(t: Fdb, ks: set<Key>)
    requires Unique(t) && Unique(Drop(t, ks)) && Keys(Drop(t, ks)) == Keys(t) - ks
    ensures Contents(Drop(t, ks)) == Contents(t) - ks
  {
    hide Keys, Contents;
    forall j | j in Drop(t, ks) ensures KeyOf(t[j]) in Contents(t) - ks && (Contents(t) - ks)[KeyOf(t[j])] == t[j] {
      ContentsAt(t, j);
    }
    ContentsIs(Drop(t, ks), Contents(t) - ks);
  }

  lemma MovedContents(t: Fdb, i: nat, intf: nat)
    requires Unique(t) && i in t
    ensures var u := t[i := t[i].(intf := intf)];
      Unique(u) && Contents(u) == Contents(t)[KeyOf(t[i]) := u[i]]
  {
    hide Contents;
    var u := t[i := t[i].(intf := intf)];
    assert Unique(u);
    var v := Contents(t)[KeyOf(t[i]) := u[i]];
    forall j | j in u ensures KeyOf(u[j]) in v && v[KeyOf(u[j])] == u[j] {
      ContentsAt(t, j);
    }
    assert Keys(u) == Keys(t) by { assert forall j | j in t :: j in u && KeyOf(u[j]) == KeyOf(t[j]); }
    ContentsIs(u, v);
    ContentsAt(t, i);
  }

  lemma LearnedKeeps(s: State, e: FdbEntry, t: State)
    requires Inv(s.sw, s.hw) && Step(s, Learned(e), t)
    ensures Inv(t.sw, t.hw) && Contents(t.sw) == Contents(s.sw)[KeyOf(e) := e]
    ensures Disputed(t.sw, t.hw) <= Disputed(s.sw, s.hw)
  {
    hide Keys, Disputed, Contents, Unique, Agree;
    var i, r :| Free(s.hw, i, r) && Free(s.sw, i, r) && t == State(Placed(s.sw, e, i, r), Placed(s.hw, e, i, r));
    PlacedKeeps(s.sw, s.hw, e, i, r);
    LearnedContents(s.sw, e, i, r);
  }

  lemma MoveKeeps(s: State, k: Key, intf: nat, written: bool, t: State)
    requires Inv(s.sw, s.hw) && Step(s, Moved(k, intf, written), t)
    ensures Inv(t.sw, t.hw) && k in Contents(s.sw)
    ensures Contents(t.sw) == Contents(s.sw)[k := Contents(s.sw)[k].(intf := intf)]
    ensures Disputed(t.sw, t.hw) <= Settle(Disputed(s.sw, s.hw), Moved(k, intf, written))
  {
    hide Keys, Disputed, Contents, Unique, Agree;
    var i :| && i in s.sw && KeyOf(s.sw[i]) == k && t.sw == s.sw[i := s.sw[i].(intf := intf)]
             && t.hw == if written then s.hw[i := t.sw[i]] else s.hw;
    MovedKeeps(s.sw, s.hw, i, intf, written);
    MovedContents(s.sw, i, intf);
    ContentsAt(s.sw, i);
  }

  /** Every event keeps the agreement of the tables, and does to the contents what it says. */
  lemma StepKeeps(s: State, ev: Event, t: State)
    requires Inv(s.sw, s.hw) && Step(s, ev, t)
    ensures Inv(t.sw, t.hw) && Contents(t.sw) == Apply(Contents(s.sw), ev)
    ensures Disputed(t.sw, t.hw) <= Settle(Disputed(s.sw, s.hw), ev)
  {
    hide Keys, Disputed, Contents, Unique, Agree;
    match ev
    case Learned(e) =>
      LearnedKeeps(s, e, t);
    case Forgotten(ks) =>
      DroppedKeeps(s.sw, s.hw, ks);
      ForgottenContents(s.sw, ks);
    case Moved(k, intf, written) =>
      MoveKeeps(s, k, intf, written, t);
    case Refused =>
  }

  lemma SettleGrows(a: set<Key>, b: set<Key>, ev: Event)
    requires a <= b
    ensures Settle(a, ev) <= Settle(b, ev)
  {
  }

  /** Over every run the two tables map the same indexes to the same VLAN/MAC pairs, each once; the
      pairs and their interfaces are the replay of the events; and hardware can disagree about an
      interface only for pairs whose last move failed twice. */
  lemma {:induction false} RunAgrees(run: seq<State>, evs: seq<Event>)
    requires |run| == |evs| + 1 && Inv(run[0].sw, run[0].hw) && run[0].sw == run[0].hw
    requires forall i | 0 <= i < |evs| :: Step(run[i], evs[i], run[i + 1])
    ensures var last := run[|evs|];
      && Inv(last.sw, last.hw) && Contents(last.sw) == Replay(Contents(run[0].sw), evs)
      && Disputed(last.sw, last.hw) <= Suspects(evs)
      && (Suspects(evs) == {} ==> last.sw == last.hw)
  {
    hide Step, Inv, Contents, Apply, Disputed, Unique, Settle;
    var n := |evs|;
    if n == 0 {
      assert Disputed(run[0].sw, run[0].hw) == {} by { NoDispute(run[0].sw); }
    } else {
      var m := n - 1;
      RunAgrees(run[..n], evs[..m]);
      assert Step(run[m], evs[m], run[n]);
      StepKeeps(run[m], evs[m], run[n]);
      SettleGrows(Disputed(run[m].sw, run[m].hw), Suspects(evs[..m]), evs[m]);
    }
    if Suspects(evs) == {} {
      Undisputed(run[n].sw, run[n].hw);
    }
  }

  lemma NoDispute(t: Fdb)
    ensures Disputed(t, t) == {}
  {
  }

  lemma Undisputed(sw: Fdb, hw: Fdb)
    requires Inv(sw, hw) && Disputed(sw, hw) == {}
    ensures sw == hw
  {
    forall i | i in sw ensures sw[i] == hw[i] {
      var k := KeyOf(sw[i]);
      assert sw[i].intf == hw[i].intf || k in Disputed(sw, hw);
    }
  }

  /** ops_xp_ml_addr_is_multicast() */
  predicate IsMulticast(m: Mac, normalOrder: bool) {
    (if normalOrder then m.b0 else m.b5) & 1 == 1
  }

  lemma GroupBit(b: bv8)
    ensures b & 1 == 1 || b & 1 == 0
  {
  }

  /** The test in one byte order is the test of the reversed address in the other. */
  lemma MulticastReversed(m: Mac)
    ensures IsMulticast(Reversed(m), true) == IsMulticast(m, false)
    ensures IsMulticast(Reversed(m), false) == IsMulticast(m, true)
    ensures Reversed(Reversed(m)) == m
  {
  }

  datatype Found = At(index: nat) | NotFound | LookupError

  function ReportOf(e: FdbEntry, event: EL.MacEvent): (r: EL.Report) {
    EL.Report(e.vlan, Reversed(e.mac), e.intf, event)
  }

  /** The report has been filed, in the active batch or in the one just handed over. */
  ghost predicate Posted(was: seq<EL.Node>, index: nat, rehash: nat, r: EL.Report,
                         active: seq<EL.Node>, frozen: seq<EL.Node>) {
    EL.Filed(was, index, rehash, r, active) || (active == [] && EL.Filed(was, index, rehash, r, frozen))
  }

  class MacLearning {
    var table: Fdb
    /** The hardware table behind the SDK. */
    var hw: Fdb
    var maxEntries: nat
    const log: EL.Log
    /** Do SDK adds, lookups and writes succeed? If not, any of them may fail at any time. */
    const reliable: bool
    /** Do SDK removals succeed? */
    const removes: bool

    constructor (log: EL.Log, maxEntries: nat, reliable: bool, removes: bool)
      requires log.Valid()
      ensures Valid() && this.log == log && table == map[] && hw == map[]
      ensures this.maxEntries == maxEntries && this.reliable == reliable && this.removes == removes
    {
      this.log, this.maxEntries, this.reliable, this.removes := log, maxEntries, reliable, removes;
      table, hw := map[], map[];
    }

    ghost predicate Valid()
      reads this, log
    {
      log.Valid() && Inv(table, hw)
    }

    ghost function View(): (s: State)
      reads this
    {
      State(table, hw)
    }

    // -------------------------------------------------------------- the SDK

    method HwAdd(e: FdbEntry) returns (ok: bool, index: nat, rehash: nat)
      modifies this`hw
      ensures reliable ==> ok
      ensures !ok ==> hw == old(hw)
      ensures ok ==> Free(old(hw), index, rehash) && hw == Placed(old(hw), e, index, rehash)
    {
      ok, index, rehash := *, 0, 0;
      ok := ok || reliable;
      if !ok { return; }
      ghost var b := UpperBound(hw.Keys);
      assert b !in hw;
      var spare: nat :| spare !in hw;
      var evict: bool := *;
      if evict && hw != map[] {
        index :| index in hw;
        rehash := spare;
        hw := hw[rehash := hw[index]];
      } else {
        index, rehash := spare, spare;
      }
      hw := hw[index := e];
    }

    method HwRemoveByIndex(index: nat) returns (ok: bool)
      modifies this`hw
      ensures removes ==> ok
      ensures hw == if ok then old(hw) - {index} else old(hw)
    {
      ok := *;
      ok := ok || removes;
      if ok { hw := hw - {index}; }
    }

    method HwFind(k: Key) returns (f: Found)
      ensures reliable ==> !f.LookupError?
      ensures f.At? ==> f.index in hw && KeyOf(hw[f.index]) == k
      ensures f.NotFound? ==> forall i | i in hw :: KeyOf(hw[i]) != k
    {
      var fault: bool := *;
      if fault && !reliable { return LookupError; }
      if i :| i in hw && KeyOf(hw[i]) == k { return At(i); }
      return NotFound;
    }

    // -------------------------------------------------------------- the event log

    method Log(e: FdbEntry, index: nat, rehash: nat, event: EL.MacEvent)
      requires log.Valid()
      modifies log
      ensures log.Valid()
      ensures log.plugin ==>
        Posted(old(log.Active()), index, rehash, ReportOf(e, event), log.Active(), log.frozen)
    {
      var _, _ := log.ActionAdd(index, rehash, ReportOf(e, event));
    }

    // -------------------------------------------------------------- operations

    /** Lines 350-404: the new entry and a relocated victim are filed where hardware put them. */
    method PlaceEntry(e: FdbEntry) returns (ok: bool, index: nat, rehash: nat)
      requires Inv(table, hw)
      modifies this`table, this`hw
      ensures (reliable ==> ok) && (!ok ==> View() == old(View()))
      ensures ok ==>
        && Free(old(hw), index, rehash) && Free(old(table), index, rehash)
        && View() == State(Placed(old(table), e, index, rehash), Placed(old(hw), e, index, rehash))
    {
      hide Unique;
      ok, index, rehash := HwAdd(e);
      if !ok { return; }
      if index != rehash {
        // the victim is known, so the recovery of lines 374-400 is never needed
        assert index in table;
        table := table[rehash := table[index]] - {index};
      }
      assert index !in table;
      table := table[index := e];
      assert table == Placed(old(table), e, index, rehash);
    }

    /** ops_xp_mac_learning_insert() */
    method Insert(e: FdbEntry) returns (rc: Errno)
      requires Valid()
      modifies this, log
      ensures log.Valid() && maxEntries == old(maxEntries) && Agree(table, hw)
      ensures rc == OK ==> (Valid() <==> KeyOf(e) !in old(Keys(table)))
      ensures rc != OK || KeyOf(e) !in old(Keys(table)) ==>
        Valid() && Step(old(View()), if rc == OK then Learned(e) else Refused, View())
      ensures rc in {OK, EPERM} && (rc == OK ==> old(|table|) < maxEntries)
      ensures reliable && old(|table|) < maxEntries ==> rc == OK
      ensures rc != OK ==> unchanged(log)
      ensures rc == OK && log.plugin ==> exists i, r ::
        && Free(old(table), i, r) && table == Placed(old(table), e, i, r)
        && Posted(old(log.Active()), i, r,
                  EL.Report(e.vlan, Mac(e.mac.b5, e.mac.b4, e.mac.b3, e.mac.b2, e.mac.b1, e.mac.b0), e.intf, EL.Learned),
                  log.Active(), log.frozen)
    {
      hide Unique, Keys, Agree, Placed, Posted, Step, Free;
      NoStep(View());
      if |table| >= maxEntries { return EPERM; }
      var ok, index, rehash := PlaceEntry(e);
      if !ok { return EPERM; }
      LearnStep(old(View()), e, index, rehash);
      Log(e, index, rehash, EL.Learned);
      rc := OK;
    }

    /** ops_xp_mac_learning_expire() */
    method Expire(index: nat) returns (rc: Errno)
      requires Valid() && index in table
      modifies this, log
      ensures Valid() && maxEntries == old(maxEntries)
      ensures Step(old(View()), if rc == OK then Forgotten({KeyOf(old(table)[index])}) else Refused, View())
      ensures rc == OK ==> table == old(table) - {index} && hw == old(hw) - {index}
      ensures rc != OK ==> View() == old(View())
      ensures (removes ==> rc == OK) && (rc != OK ==> unchanged(log))
      ensures rc == OK && log.plugin ==>
        var e := old(table)[index];
        Posted(old(log.Active()), index, index,
               EL.Report(e.vlan, Mac(e.mac.b5, e.mac.b4, e.mac.b3, e.mac.b2, e.mac.b1, e.mac.b0), e.intf, EL.Removed),
               log.Active(), log.frozen)
      ensures rc in {OK, EPERM}
    {
      hide Posted;
      var ok := HwRemoveByIndex(index);
      if !ok { return EPERM; }
      var e := table[index];
      table := table - {index};
      OnlyAt(old(table), old(hw), index);
      DroppedKeeps(old(table), old(hw), {KeyOf(e)});
      Log(e, index, index, EL.Removed);
      rc := OK;
    }

    /** Lines 612-630: a failed hardware write is answered by expiring the entry. */
    method MoveAt(index: nat, intf: nat) returns (ghost ev: Event)
      requires Valid() && index in table
      modifies this, log
      ensures Valid() && maxEntries == old(maxEntries) && Step(old(View()), ev, View())
      ensures MoveOf(ev, KeyOf(old(table)[index]), intf)
      ensures (reliable ==> ev.Moved?) && (ev.Moved? && !ev.written ==> !reliable && !removes)
      ensures reliable && log.plugin ==>
        && index in table
        && var e := old(table)[index];
           Posted(old(log.Active()), index, index,
                  EL.Report(e.vlan, Mac(e.mac.b5, e.mac.b4, e.mac.b3, e.mac.b2, e.mac.b1, e.mac.b0), intf, EL.Learned),
                  log.Active(), log.frozen)
    {
      hide Unique, Posted, Keys;
      ghost var k := KeyOf(table[index]);
      table := table[index := table[index].(intf := intf)];
      Log(table[index], index, index, EL.Learned);
      var written: bool := *;
      written := written || reliable;
      MovedKeeps(old(table), hw, index, intf, written);
      ev := Moved(k, intf, written);
      if written {
        hw := hw[index := table[index]];
      } else {
        var rc := Expire(index);
        if rc == OK {
          OnlyAt(old(table), old(hw), index);
          assert table == old(table) - {index};
          ev := Forgotten({k});
        }
      }
    }

    /** The XP_BRIDGE_MAC_SA_MOVE case of ops_xp_mac_learning_learn(). */
    method Move(data: FdbEntry) returns (rc: Errno, ghost ev: Event)
      requires Valid()
      modifies this, log
      ensures Valid() && maxEntries == old(maxEntries) && Step(old(View()), ev, View())
      ensures rc == ENOENT ==> ev == Refused
      ensures rc != ENOENT ==>
        rc == OK && old(Knows(table, data.vlan, data.mac)) && MoveOf(ev, KeyOf(data), data.intf)
      ensures reliable ==> (rc == OK ==> ev.Moved?) && (rc == OK <==> old(Knows(table, data.vlan, data.mac)))
      ensures ev.Moved? && !ev.written ==> !reliable && !removes
    {
      hide Unique, Step;
      var f := HwFind(KeyOf(data));
      KnowsIs(table, KeyOf(data));
      if !f.At? { NoStep(View()); return ENOENT, Refused; }
      // the entry is known, so the recovery of lines 589-610 is never needed
      assert f.index in table;
      ev := MoveAt(f.index, data.intf);
      rc := OK;
    }

    /** ops_xp_mac_learning_learn(); `learning` is whether the VLAN exists and does not flood. */
    method Learn(data: FdbEntry, reason: Reason, learning: bool) returns (rc: Errno, ghost ev: Event)
      requires Valid()
      modifies this, log
      ensures Valid() && maxEntries == old(maxEntries) && Step(old(View()), ev, View())
      ensures !learning || data.mac.b5 & 1 == 1 ==> rc == EPERM
      ensures rc != OK || reason == OtherReason ==> ev == Refused
      ensures rc == OK && reason in {SaNew, SaMiss} ==> ev == Learned(data)
      ensures rc == OK && reason == SaMove ==> MoveOf(ev, KeyOf(data), data.intf)
      ensures rc in {OK, EPERM, ENOENT, EEXIST} && (rc == EEXIST ==> Knows(table, data.vlan, data.mac))
      ensures ev.Moved? && !ev.written ==> !reliable && !removes
      ensures reliable && learning && data.mac.b5 & 1 == 0 ==>
        match reason
        case SaNew | SaMiss =>
          if old(Knows(table, data.vlan, data.mac)) then rc == EEXIST
          else rc == if old(|table|) < maxEntries then OK else EPERM
        case SaMove => (rc == OK <==> old(Knows(table, data.vlan, data.mac))) && (rc == OK ==> ev.Moved?)
        case OtherReason => rc == OK
    {
      hide Unique, Step;
      ev := Refused;
      NoStep(View());
      KnowsIs(table, KeyOf(data));
      GroupBit(data.mac.b5);
      if !learning || IsMulticast(data.mac, false) { return EPERM, Refused; }
      match reason {
        case SaNew | SaMiss =>
          var f := HwFind(KeyOf(data));
          match f {
            case NotFound =>
              assert KeyOf(data) !in Keys(table);
              rc := Insert(data);
              ev := if rc == OK then Learned(data) else Refused;
            case LookupError => rc := ENOENT;
            case At(index) =>
              assert index in table;
              rc := EEXIST;
          }
        case SaMove =>
          rc, ev := Move(data);
        case OtherReason =>
          rc := OK;
      }
    }

    /** ops_xp_mac_learning_age_by_index(), the hardware ageing event. */
    method AgeByIndex(index: nat) returns (rc: Errno)
      requires Valid()
      modifies this, log
      ensures Valid()
      ensures Step(old(View()), if rc == OK && index in old(table) then Forgotten({KeyOf(old(table)[index])}) else Refused,
                   View())
      ensures index !in old(table) || removes ==> rc == OK
    {
      hide Inv;
      if index in table {
        rc := Expire(index);
      } else {
        rc := OK;
      }
    }

    /** ops_xp_mac_learning_age_by_vlan_and_mac() */
    method AgeByKey(k: Key) returns (rc: Errno)
      requires Valid()
      modifies this, log
      ensures Valid() && Step(old(View()), if rc == OK then Forgotten({k}) else Refused, View())
      ensures rc == OK ==> k in old(Keys(table))
      ensures removes ==> (rc == OK <==> k in old(Keys(table)))
    {
      hide Unique;
      KnowsIs(table, k);
      if i :| i in table && KeyOf(table[i]) == k {
        rc := Expire(i);
        KnowsIs(table, k);
      } else {
        rc := EPERM;
      }
    }

    // -------------------------------------------------------------- flushing

    /** The loop shared by the flush family: entries are expired while the table is walked, and
        an entry whose hardware removal fails stays. */
    method FlushWhere(p: FdbEntry -> bool) returns (ghost stuck: set<nat>)
      requires Valid()
      modifies this, log
      ensures Valid() && Step(old(View()), Forgotten(old(Keys(table)) - Keys(table)), View())
      ensures table == map i | i in old(table) && (!p(old(table)[i]) || i in stuck) :: old(table)[i]
      ensures removes ==> stuck == {}
      ensures stuck <= old(table).Keys && forall i | i in stuck :: p(old(table)[i])
    {
      hide Inv, Step, Posted;
      var todo := table.Keys;
      stuck := {};
      ghost var gone: set<nat> := {};
      while todo != {}
        invariant Valid() && todo <= table.Keys
        invariant gone <= old(table).Keys - todo && table == old(table) - gone && hw == old(hw) - gone
        invariant stuck <= old(table).Keys - todo && (removes ==> stuck == {})
        invariant forall i | i in stuck :: p(old(table)[i])
        invariant forall i | i in old(table) && i !in todo :: i in gone <==> p(old(table)[i]) && i !in stuck
        decreases todo
      {
        var i :| i in todo;
        todo := todo - {i};
        if p(table[i]) {
          var rc := Expire(i);
          if rc != OK { stuck := stuck + {i}; } else { gone := gone + {i}; }
        }
      }
      DropIndexes(old(table), old(hw), gone);
      ForgetStep(old(View()), old(Keys(table)) - Keys(table), View());
    }

    /** ops_xp_mac_learning_flush() */
    method Flush(dynamicOnly: bool) returns (ghost stuck: set<nat>)
      requires Valid()
      modifies this, log
      ensures Valid() && Step(old(View()), Forgotten(old(Keys(table)) - Keys(table)), View())
      ensures forall i :: i in table <==> i in old(table) && ((dynamicOnly && old(table)[i].isStatic) || i in stuck)
      ensures removes ==> stuck == {}
    {
      hide Inv, Step;
      stuck := FlushWhere((e: FdbEntry) => !dynamicOnly || !e.isStatic);
    }

    /** ops_xp_mac_learning_flush_intfId(), also the port-down event with `dynamicOnly`. */
    method FlushIntf(intf: nat, dynamicOnly: bool) returns (ghost stuck: set<nat>)
      requires Valid()
      modifies this, log
      ensures Valid() && Step(old(View()), Forgotten(old(Keys(table)) - Keys(table)), View())
      ensures forall i :: i in table <==>
        i in old(table) && (old(table)[i].intf != intf || (dynamicOnly && old(table)[i].isStatic) || i in stuck)
      ensures removes ==> stuck == {}
    {
      hide Inv, Step;
      stuck := FlushWhere((e: FdbEntry) => e.intf == intf && (!dynamicOnly || !e.isStatic));
    }

    /** ops_xp_mac_learning_flush_vlan(), also the VLAN-removed event. */
    method FlushVlan(vlan: nat) returns (ghost stuck: set<nat>)
      requires Valid()
      modifies this, log
      ensures Valid() && Step(old(View()), Forgotten(old(Keys(table)) - Keys(table)), View())
      ensures forall i :: i in table <==> i in old(table) && (old(table)[i].vlan != vlan || i in stuck)
      ensures removes ==> stuck == {}
    {
      hide Inv, Step;
      stuck := FlushWhere((e: FdbEntry) => e.vlan == vlan);
    }

    /** ops_xp_mac_learning_flush_vlan_intf() */
    method FlushVlanIntf(vlan: nat, intf: nat) returns (ghost stuck: set<nat>)
      requires Valid()
      modifies this, log
      ensures Valid() && Step(old(View()), Forgotten(old(Keys(table)) - Keys(table)), View())
      ensures forall i :: i in table <==>
        i in old(table) && (old(table)[i].vlan != vlan || old(table)[i].intf != intf || i in stuck)
      ensures removes ==> stuck == {}
    {
      hide Inv, Step;
      stuck := FlushWhere((e: FdbEntry) => e.vlan == vlan && e.intf == intf);
    }

    /** ops_xp_mac_learning_on_vni_removed() */
    method FlushVni(vlan: nat, vni: nat, intf: nat) returns (ghost stuck: set<nat>)
      requires Valid()
      modifies this, log
      ensures Valid() && Step(old(View()), Forgotten(old(Keys(table)) - Keys(table)), View())
      ensures forall i :: i in table <==>
        && i in old(table)
        && (old(table)[i].vlan != vlan || old(table)[i].intf != intf || old(table)[i].vni != vni || i in stuck)
      ensures removes ==> stuck == {}
    {
      hide Inv, Step;
      stuck := FlushWhere((e: FdbEntry) => e.vlan == vlan && e.intf == intf && e.vni == vni);
    }
  }

  lemma LearnStep(s: State, e: FdbEntry, i: nat, r: nat)
    requires Inv(s.sw, s.hw) && Free(s.hw, i, r) && Free(s.sw, i, r)
    ensures var t := State(Placed(s.sw, e, i, r), Placed(s.hw, e, i, r));
      && Agree(t.sw, t.hw) && (Unique(t.sw) <==> KeyOf(e) !in Keys(s.sw))
      && (KeyOf(e) !in Keys(s.sw) ==> Step(s, Learned(e), t))
  {
    hide Unique, Keys;
    if KeyOf(e) !in Keys(s.sw) { PlacedKeeps(s.sw, s.hw, e, i, r); } else { PlacedTwice(s.sw, e, i, r); }
  }

  lemma NoStep(s: State)
    ensures Step(s, Refused, s)
  {
  }

  lemma ForgetStep(s: State, ks: set<Key>, t: State)
    requires t.sw == Drop(s.sw, ks) && t.hw == Drop(s.hw, ks)
    ensures Step(s, Forgotten(ks), t)
  {
  }

  /** Dropping an index is dropping its pair, since no other index has it. */
  lemma OnlyAt(sw: Fdb, hw: Fdb, i: nat)
    requires Inv(sw, hw) && i in sw
    ensures sw - {i} == Drop(sw, {KeyOf(sw[i])}) && hw - {i} == Drop(hw, {KeyOf(sw[i])})
  {
    assert forall j | j in hw :: KeyOf(hw[j]) == KeyOf(sw[j]);
  }
}

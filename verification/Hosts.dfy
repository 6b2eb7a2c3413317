/** Host entries of the L3 manager: immutable ids from a free list, hardware indexes that
    may move whenever another host is inserted. */
module Hosts {
  import opened Common

  type HostId = nat
  type Index = nat

  datatype Errno = OK | EPFNOSUPPORT | EAGAIN | EHOSTDOWN

  /** What a host entry is for. */
  datatype Entry = Entry(addr: string, ipv6: bool, isLocal: bool)

  /** `index` is the hardware index under which the host map files the entry. */
  datatype Host = Host(entry: Entry, index: Index)

  /** `free` is the list of retired ids, last retired first; `hw` is the hardware host table. */
  datatype State = State(nextId: nat, free: seq<HostId>, hosts: map<HostId, Host>, hw: map<Index, Entry>)

  /** Live ids and retired ids share out 0..nextId. */
  ghost predicate Partition(s: State) {
    && (forall i, j | 0 <= i < j < |s.free| :: s.free[i] != s.free[j])
    && (forall id :: id in s.hosts || id in s.free <==> 0 <= id < s.nextId)
    && (forall id | id in s.hosts :: id !in s.free)
  }

  /** Every live host is in hardware at its own index. */
  ghost predicate Located(s: State) {
    && (forall id | id in s.hosts :: s.hosts[id].index in s.hw && s.hw[s.hosts[id].index] == s.hosts[id].entry)
    && (forall i, j {:trigger s.hosts[i], s.hosts[j]} | i in s.hosts && j in s.hosts && i != j ::
          s.hosts[i].index != s.hosts[j].index)
  }

  ghost predicate Inv(s: State) {
    Partition(s) && Located(s)
  }

  /** The same, but for one id that is neither live nor retired. */
  ghost predicate InFlight(s: State, id: HostId) {
    && (forall i, j | 0 <= i < j < |s.free| :: s.free[i] != s.free[j])
    && (forall i :: i in s.hosts || i in s.free || i == id <==> 0 <= i < s.nextId)
    && (forall i | i in s.hosts :: i !in s.free) && id !in s.hosts && id !in s.free
  }

  /** The id the next add will use. */
  function NextId(s: State): (id: HostId) {
    if s.free == [] then s.nextId else s.free[0]
  }

  datatype Op = Added(id: HostId, entry: Entry) | Deleted(id: HostId) | Refused

  /** An entry at `hash`; the host found there, if `rehash` differs, has moved to `rehash`. */
  ghost predicate AddedAt(s: State, id: HostId, entry: Entry, hash: Index, rehash: Index, t: State) {
    && id == NextId(s)
    && (if s.free == [] then t.free == [] && t.nextId == s.nextId + 1 else t.free == s.free[1..] && t.nextId == s.nextId)
    && (if hash == rehash then hash !in s.hw else hash in s.hw && rehash !in s.hw)
    && t.hosts == (if hash == rehash then s.hosts else Moved(s.hosts, hash, rehash))[id := Host(entry, hash)]
    && t.hw == (if hash == rehash then s.hw else s.hw[rehash := s.hw[hash]])[hash := entry]
  }

  /** What each call does. A refused add has taken an id and put it back on the free list. */
  ghost predicate Step(s: State, op: Op, t: State) {
    match op
    case Added(id, entry) => exists hash, rehash :: AddedAt(s, id, entry, hash, rehash, t)
    case Deleted(id) =>
      if id !in s.hosts then t == s
      else && t.hosts == s.hosts - {id} && t.free == [id] + s.free && t.nextId == s.nextId
           && (t.hw == s.hw || t.hw == s.hw - {s.hosts[id].index})
    case Refused =>
      && t.hosts == s.hosts && t.hw == s.hw
      && if s.free == [] then t.free == [s.nextId] && t.nextId == s.nextId + 1
         else t.free == s.free && t.nextId == s.nextId
  }

  /** What the ids stand for, whatever their indexes. */
  function Names(s: State): (m: map<HostId, Entry>) {
    map id | id in s.hosts :: s.hosts[id].entry
  }

  function Apply(m: map<HostId, Entry>, op: Op): (r: map<HostId, Entry>) {
    match op
    case Added(id, entry) => m[id := entry]
    case Deleted(id) => m - {id}
    case Refused => m
  }

  function Replay(m: map<HostId, Entry>, ops: seq<Op>): (r: map<HostId, Entry>) {
    if ops == [] then m else Apply(Replay(m, ops[..|ops| - 1]), ops[|ops| - 1])
  }

  /** Every call keeps the partition of the ids and the indexes in step with hardware. */
  lemma StepKeeps(s: State, op: Op, t: State)
    requires Inv(s) && Step(s, op, t)
    ensures Inv(t) && Names(t) == Apply(Names(s), op)
    ensures op.Added? ==> op.id == NextId(s) && op.id !in s.hosts
    ensures op.Refused? ==> NextId(t) == NextId(s)
  {
    match op
    case Added(id, entry) =>
      var hash, rehash :| AddedAt(s, id, entry, hash, rehash, t);
      AddKeeps(s, id, entry, hash, rehash, t);
    case Deleted(id) =>
      DeleteKeeps(s, id, t);
    case Refused =>
      RefuseKeeps(s, t);
  }

  ghost predicate IsRun(run: seq<State>, ops: seq<Op>) {
    && |run| == |ops| + 1 && Inv(run[0])
    && forall i | 0 <= i < |ops| :: Step(run[i], ops[i], run[i + 1])
  }

  /** Over every run live and retired ids share out 0..nextId, each host is in hardware at the index
      on record, and the ids stand for what the calls say. */
  lemma {:induction false} RunNames(run: seq<State>, ops: seq<Op>)
    requires IsRun(run, ops)
    ensures Inv(run[|ops|]) && Names(run[|ops|]) == Replay(Names(run[0]), ops)
  {
    hide Inv, Step, Names, Apply;
    if |ops| > 0 {
      var n := |ops| - 1;
      RunNames(run[..n + 1], ops[..n]);
      StepKeeps(run[n], ops[n], run[n + 1]);
    }
  }

  /** An id keeps resolving to the same host, found in hardware at its current index, across
      any number of calls that do not delete it. */
  lemma {:induction false} IdIsStable(run: seq<State>, ops: seq<Op>, id: HostId)
    requires IsRun(run, ops) && id in run[0].hosts && Deleted(id) !in ops
    ensures var last := run[|ops|];
      && Inv(last) && id in last.hosts && last.hosts[id].entry == run[0].hosts[id].entry
      && last.hosts[id].index in last.hw && last.hw[last.hosts[id].index] == run[0].hosts[id].entry
  {
    hide Step, Partition;
    if |ops| > 0 {
      var n := |ops| - 1;
      IdIsStable(run[..n + 1], ops[..n], id);
      StepKeeps(run[n], ops[n], run[n + 1]);
      assert ops[n] in ops;
      assert id in Names(run[n]) && Names(run[n + 1])[id] == Names(run[n])[id];
    }
  }

  /** An id is handed out again only after it was deleted. */
  lemma {:induction false} IdIsNotReissued(run: seq<State>, ops: seq<Op>, id: HostId, entry: Entry)
    requires IsRun(run, ops) && id in run[0].hosts && Added(id, entry) in ops
    ensures Deleted(id) in ops
  {
    hide Step;
    var k :| 0 <= k < |ops| && ops[k] == Added(id, entry);
    if Deleted(id) !in ops {
      IdIsStable(run[..k + 1], ops[..k], id);
      StepKeeps(run[k], ops[k], run[k + 1]);
    }
  }

  /** Who asked for a host: a port, for one of its addresses. */
  datatype Creator = Creator(port: nat, addr: string)

  /** A live host entry and who asked for it. */
  datatype Holder = Holder(entry: Entry, creator: Creator)

  class HostTable {
    var nextId: nat
    var free: seq<HostId>
    var hosts: map<HostId, Host>
    /** The hardware host table behind the SDK. */
    var hw: map<Index, Entry>
    /** Does every SDK call succeed? If not, any of them may fail at any time. */
    const reliable: bool
    /** What each live host is for and who asked for it, which the code does not record. */
    ghost var holders: map<HostId, Holder>

    constructor (reliable: bool)
      ensures Valid() && View() == State(0, [], map[], map[]) && this.reliable == reliable && holders == map[]
    {
      this.reliable, holders := reliable, map[];
      nextId, free, hosts, hw := 0, [], map[], map[];
    }

    ghost predicate Valid()
      reads this
    {
      && Inv(View()) && holders.Keys == hosts.Keys
      && forall id | id in hosts :: holders[id].entry == hosts[id].entry
    }

    ghost function View(): (s: State)
      reads this
    {
      State(nextId, free, hosts, hw)
    }

    /** host_entry_alloc() */
    method Alloc() returns (id: HostId)
      requires Partition(View())
      modifies this`nextId, this`free
      ensures id == old(NextId(View())) && id !in hosts && id !in free
      ensures forall i :: i in hosts || i in free || i == id <==> 0 <= i < nextId
      ensures forall i, j | 0 <= i < j < |free| :: free[i] != free[j]
      ensures old(free) == [] ==> free == [] && nextId == old(nextId) + 1
      ensures old(free) != [] ==> free == old(free)[1..] && nextId == old(nextId)
      ensures InFlight(View(), id)
    {
      if free == [] {
        id := nextId;
        nextId := nextId + 1;
      } else {
        id := free[0];
        assert free == [free[0]] + free[1..];
        free := free[1..];
      }
    }

    /** host_entry_free() */
    method Release(id: HostId)
      modifies this`free
      ensures NextId(View()) == id && free == [id] + old(free)
      ensures old(InFlight(View(), id)) ==> Partition(View())
    {
      free := [id] + free;
    }

    /** The SDK's insert: the new entry takes a free index, or evicts a victim to one. */
    method HwAdd(entry: Entry) returns (ok: bool, hash: Index, rehash: Index)
      modifies this`hw
      ensures reliable ==> ok
      ensures !ok ==> hw == old(hw)
      ensures ok && hash == rehash ==> hash !in old(hw) && hw == old(hw)[hash := entry]
      ensures ok && hash != rehash ==>
        hash in old(hw) && rehash !in old(hw) && hw == old(hw)[rehash := old(hw)[hash]][hash := entry]
    {
      ok, hash, rehash := *, 0, 0;
      ok := ok || reliable;
      if !ok { return; }
      ghost var b := UpperBound(hw.Keys);
      assert b !in hw;
      var spare: Index :| spare !in hw;
      var evict: bool := *;
      if evict && hw != map[] {
        hash :| hash in hw;
        rehash := spare;
        hw := hw[rehash := hw[hash]];
      } else {
        hash, rehash := spare, spare;
      }
      hw := hw[hash := entry];
    }

    /** Lines 330-339: the victim of the insert, if it is a known host, is filed under its new index. */
    method Relocate(hash: Index, rehash: Index, ghost s: State)
      requires Located(s) && s.hosts == hosts
      modifies this`hosts
      ensures hosts == Moved(old(hosts), hash, rehash)
    {
      if i :| i in hosts && hosts[i].index == hash {
        hosts := hosts[i := hosts[i].(index := rehash)];
      }
    }

    /** ops_xp_routing_add_host_entry(); `parsed` is the outcome of reading the address. */
    method Add(entry: Entry, parsed: bool, ghost who: Creator) returns (rc: Errno, id: HostId)
      requires Valid()
      modifies this
      ensures Valid() && holders == (if rc == OK then old(holders)[id := Holder(entry, who)] else old(holders))
      ensures Step(old(View()), if rc == OK then Added(id, entry) else Refused, View())
      ensures rc == OK ==> id == old(NextId(View())) && id !in old(hosts)
      ensures Names(View()) == if rc == OK then old(Names(View()))[id := entry] else old(Names(View()))
      ensures rc in {OK, EPFNOSUPPORT, EAGAIN} && (rc == EPFNOSUPPORT <==> !parsed) && (reliable && parsed ==> rc == OK)
    {
      hide Inv, Step, Names;
      ghost var s := View();
      rc, id := Insert(entry, parsed);
      if rc == OK {
        KeysAdded(s, View(), id, entry);
        holders := holders[id := Holder(entry, who)];
      }
    }

    method Insert(entry: Entry, parsed: bool) returns (rc: Errno, id: HostId)
      requires Inv(View())
      modifies this`nextId, this`free, this`hosts, this`hw
      ensures Inv(View()) && Step(old(View()), if rc == OK then Added(id, entry) else Refused, View())
      ensures rc == OK ==> id == old(NextId(View())) && id !in old(hosts)
      ensures Names(View()) == if rc == OK then old(Names(View()))[id := entry] else old(Names(View()))
      ensures rc != OK ==> hosts == old(hosts)
      ensures rc in {OK, EPFNOSUPPORT, EAGAIN} && (rc == EPFNOSUPPORT <==> !parsed) && (reliable && parsed ==> rc == OK)
    {
      hide Located, Moved, Names;
      ghost var s := View();
      id := Alloc();
      if !parsed {
        Release(id);
        StepKeeps(s, Refused, View());
        return EPFNOSUPPORT, id;
      }
      var ok, hash, rehash := HwAdd(entry);
      if !ok {
        Release(id);
        StepKeeps(s, Refused, View());
        return EAGAIN, id;
      }
      if hash != rehash {
        Relocate(hash, rehash, s);
      }
      hosts := hosts[id := Host(entry, hash)];
      rc := OK;
      assert AddedAt(s, id, entry, hash, rehash, View());
      StepKeeps(s, Added(id, entry), View());
      NamesAdded(s, id, entry);
    }

    /** ops_xp_routing_delete_host_entry(): an unknown id is only logged, and a failed hardware
        removal leaves the software side deleted. */
    method Delete(id: int) returns (rc: Errno)
      requires Valid()
      modifies this
      ensures Valid() && holders == (if id >= 0 then old(holders) - {id as nat} else old(holders))
      ensures (id < 0 || id !in old(hosts) ==> rc == OK && View() == old(View()))
      ensures 0 <= id ==> Step(old(View()), Deleted(id), View()) && Names(View()) == old(Names(View())) - {id as nat}
      ensures id >= 0 && id in old(hosts) ==>
        NextId(View()) == id && hw == if rc == OK then old(hw) - {old(hosts)[id].index} else old(hw)
      ensures rc in {OK, EHOSTDOWN} && (reliable ==> rc == OK)
    {
      hide Located, Partition, Names;
      ghost var s := View();
      if 0 <= id && id !in hosts { StepKeeps(s, Deleted(id), s); }
      if id < 0 || id !in hosts { return OK; }
      var index := hosts[id].index;
      hosts := hosts - {id};
      holders := holders - {id};
      Release(id);
      var ok: bool := *;
      ok := ok || reliable;
      if ok {
        hw := hw - {index};
      }
      rc := if ok then OK else EHOSTDOWN;
      StepKeeps(s, Deleted(id), View());
    }
  }

  /** The host filed under `hash` is now filed under `rehash`. */
  function Moved(hosts: map<HostId, Host>, hash: Index, rehash: Index): (r: map<HostId, Host>) {
    map j | j in hosts :: if hosts[j].index == hash then hosts[j].(index := rehash) else hosts[j]
  }

  lemma KeysAdded(s: State, t: State, id: HostId, entry: Entry)
    requires Names(t) == Names(s)[id := entry]
    ensures t.hosts.Keys == s.hosts.Keys + {id} && t.hosts[id].entry == entry
    ensures forall i | i in s.hosts && i != id :: t.hosts[i].entry == s.hosts[i].entry
  {
    assert Names(t).Keys == t.hosts.Keys && Names(s).Keys == s.hosts.Keys;
    assert Names(t)[id] == entry;
    forall i | i in s.hosts && i != id ensures t.hosts[i].entry == s.hosts[i].entry {
      assert Names(t)[i] == Names(s)[i];
    }
  }

  lemma NamesAdded(s: State, id: HostId, entry: Entry)
    ensures Apply(Names(s), Added(id, entry)) == Names(s)[id := entry]
  {
  }

  lemma RefuseKeeps(s: State, t: State)
    requires Inv(s) && Step(s, Refused, t)
    ensures Inv(t) && Names(t) == Names(s) && NextId(t) == NextId(s)
  {
  }

  lemma DeleteKeeps(s: State, id: HostId, t: State)
    requires Inv(s) && Step(s, Deleted(id), t)
    ensures Inv(t) && Names(t) == Names(s) - {id}
  {
  }

  /** After the move nobody is filed under `hash`, although the hardware still shows the victim there. */
  lemma MoveLocated(s: State, hash: Index, rehash: Index)
    requires Located(s) && hash in s.hw && rehash !in s.hw
    ensures var t := s.(hosts := Moved(s.hosts, hash, rehash), hw := s.hw[rehash := s.hw[hash]]);
      Located(t) && forall j | j in t.hosts :: t.hosts[j].index != hash
  {
  }

  /** A new host at an index under which nobody is filed. */
  lemma PutLocated(s: State, id: HostId, entry: Entry, hash: Index)
    requires Located(s) && forall j | j in s.hosts :: s.hosts[j].index != hash
    ensures Located(s.(hosts := s.hosts[id := Host(entry, hash)], hw := s.hw[hash := entry]))
  {
  }

  lemma AddKeeps(s: State, id: HostId, entry: Entry, hash: Index, rehash: Index, t: State)
    requires Inv(s) && AddedAt(s, id, entry, hash, rehash, t)
    ensures Inv(t) && id !in s.hosts && Names(t) == Names(s)[id := entry]
  {
    AddNames(s, id, entry, hash, rehash, t);
    hide Located, Partition, Names;
    NextIsFree(s);
    AddPartition(s, t, id);
    AddLocated(s, id, entry, hash, rehash, t);
  }

  lemma AddNames(s: State, id: HostId, entry: Entry, hash: Index, rehash: Index, t: State)
    requires AddedAt(s, id, entry, hash, rehash, t)
    ensures Names(t) == Names(s)[id := entry] && t.hosts.Keys == s.hosts.Keys + {id}
  {
  }

  lemma AddLocated(s: State, id: HostId, entry: Entry, hash: Index, rehash: Index, t: State)
    requires Located(s) && AddedAt(s, id, entry, hash, rehash, t)
    ensures Located(t)
  {
    hide Located, Moved;
    var moved := if hash == rehash then s
                 else s.(hosts := Moved(s.hosts, hash, rehash), hw := s.hw[rehash := s.hw[hash]]);
    if hash == rehash { NobodyAt(s, hash); } else { MoveLocated(s, hash, rehash); }
    PutLocated(moved, id, entry, hash);
    LocatedFields(moved.(hosts := t.hosts, hw := t.hw), t);
  }

  lemma NextIsFree(s: State)
    requires Partition(s)
    ensures NextId(s) !in s.hosts
  {
  }

  lemma NobodyAt(s: State, hash: Index)
    requires Located(s) && hash !in s.hw
    ensures forall j | j in s.hosts :: s.hosts[j].index != hash
  {
  }

  lemma LocatedFields(s: State, t: State)
    requires Located(s) && s.hosts == t.hosts && s.hw == t.hw
    ensures Located(t)
  {
  }

  lemma AddPartition(s: State, t: State, id: HostId)
    requires Partition(s) && id == NextId(s) && t.hosts.Keys == s.hosts.Keys + {id}
    requires s.free == [] ==> t.free == [] && t.nextId == s.nextId + 1
    requires s.free != [] ==> t.free == s.free[1..] && t.nextId == s.nextId
    ensures Partition(t)
  {
  }
}

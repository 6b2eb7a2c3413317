/** What route requests mean: a plain map from prefix to set of next-hop ids, and how
    closely the shared groups follow it. */
module RouteSpec {
  import opened Common
  import opened Lists
  import opened NhGroups

  datatype Errno = OK | ENOMEM | EHOSTUNREACH | EACCES | EPFNOSUPPORT | EAGAIN | EFAULT | EPERM | EINVAL

  /** A requested next hop; a resolved one names the host entry it forwards to. */
  datatype Nexthop = Nexthop(id: NhId, resolved: bool, egressId: int)

  /** `wellFormed` stands for the outcome of parsing the prefix string. */
  datatype RouteRequest = RouteRequest(prefix: Prefix, nexthops: seq<Nexthop>, wellFormed: bool)

  datatype Action = Add | Delete | DeleteNh | Unknown

  function Named(nhs: seq<Nexthop>): (r: set<NhId>) {
    set n | n in nhs :: n.id
  }

  ghost predicate Distinct(nhs: seq<Nexthop>) {
    forall i, j | 0 <= i < j < |nhs| :: nhs[i].id != nhs[j].id
  }

  lemma NamedNext(nhs: seq<Nexthop>, i: nat)
    requires i < |nhs|
    ensures Named(nhs[..i + 1]) == Named(nhs[..i]) + {nhs[i].id}
  {
  }

  /** nh_update(): a resolved next hop must name a live host entry. */
  predicate Reachable(n: Nexthop, hosts: set<int>) {
    n.resolved ==> n.egressId in hosts
  }

  ghost predicate AllReachable(nhs: seq<Nexthop>, hosts: set<int>) {
    forall i | 0 <= i < |nhs| && nhs[i].resolved :: nhs[i].egressId in hosts
  }

  type Plain = map<Prefix, set<NhId>>

  function Have(t: Plain, p: Prefix): (r: set<NhId>) {
    if p in t then t[p] else {}
  }

  /** The plain meaning of an accepted request. */
  function Apply(t: Plain, a: Action, req: RouteRequest): (r: Plain) {
    var p, named := req.prefix, Named(req.nexthops);
    match a
    case Add => t[p := Have(t, p) + named]
    case Delete => t - {p}
    case DeleteNh => if p in t then t[p := t[p] - named] else t
    case Unknown => t
  }

  /** An ADD whose ids are distinct and, when it brings a new id, are all new. */
  ghost predicate Clean(t: Plain, a: Action, req: RouteRequest) {
    var named := Named(req.nexthops);
    a.Add? ==> Distinct(req.nexthops) && (named <= Have(t, req.prefix) || named !! Have(t, req.prefix))
  }

  function SizeOf(groups: map<GroupRef, NhGroup>, o: Option<GroupRef>): (n: nat) {
    if o.Some? && o.value in groups then groups[o.value].size else 0
  }

  function EntriesOf(s: L3, p: Prefix): (es: seq<NhEntry>) {
    var o := PointerOf(s, p);
    if o.Some? && o.value in s.groups then s.groups[o.value].entries else []
  }

  function NamesOf(nhs: seq<Nexthop>): (r: seq<NhId>) {
    seq(|nhs|, i requires 0 <= i < |nhs| => nhs[i].id)
  }

  /** The named ids that are not there yet, each at its first mention. */
  function NewIds(have: set<NhId>, nhs: seq<Nexthop>): (r: seq<NhId>) {
    if nhs == [] then [] else
      var front, last := nhs[..|nhs| - 1], nhs[|nhs| - 1];
      NewIds(have, front) + (if last.id in have + Named(front) then [] else [last.id])
  }

  lemma NewIdsNext(have: set<NhId>, nhs: seq<Nexthop>, i: nat)
    requires i < |nhs|
    ensures NewIds(have, nhs[..i + 1])
         == NewIds(have, nhs[..i]) + if nhs[i].id in have + Named(nhs[..i]) then [] else [nhs[i].id]
  {
    assert nhs[..i + 1][..i] == nhs[..i];
  }

  lemma NoneNew(have: set<NhId>, nhs: seq<Nexthop>)
    ensures NewIds(have, nhs[..0]) == [] && Named(nhs[..0]) == {}
  {
  }

  /** A hash under which an ADD may look for a group to share: a new route hashes the request as it
      is, a known one hashes its old entries in the order of their map and then the new ids. */
  ghost predicate AddHash(s: L3, p: Prefix, nhs: seq<Nexthop>, h: nat) {
    if p in s.routes then
      exists at :: && Order(EntriesOf(s, p), {}, at)
                   && h == Fold(s.hash, Pick(EntriesOf(s, p), at) + NewIds(Have(Table(s), p), nhs))
    else h == Fold(s.hash, NamesOf(nhs))
  }

  /** A hash under which a DELETE_NH may look for a group to share. */
  ghost predicate DropHash(s: L3, p: Prefix, nhs: seq<Nexthop>, h: nat) {
    exists at :: Order(EntriesOf(s, p), Named(nhs), at) && h == Fold(s.hash, Pick(EntriesOf(s, p), at))
  }

  lemma DropHashIs(s: L3, p: Prefix, nhs: seq<Nexthop>, at: seq<nat>, g: NhGroup)
    requires Hashed(s.hash, g) && Order(EntriesOf(s, p), Named(nhs), at) && IdSeq(g.entries) == Pick(EntriesOf(s, p), at)
    requires g.size == SizeOf(s.groups, PointerOf(s, p)) - |DroppedAt(EntriesOf(s, p), Named(nhs))|
    requires Ids(g) == Have(Table(s), p) - Named(nhs)
    ensures DropHash(s, p, nhs, g.hash) && DropGroupOf(s, p, nhs, g)
  {
  }

  lemma UpdateHash(s: L3, p: Prefix, nhs: seq<Nexthop>, at: seq<nat>, g: NhGroup)
    requires p in s.routes && Hashed(s.hash, g) && Order(EntriesOf(s, p), {}, at)
    requires IdSeq(g.entries) == Pick(EntriesOf(s, p), at) + NewIds(IdsOf(s.groups, s.routes[p].group), nhs)
    requires g.size == |nhs| + SizeOf(s.groups, PointerOf(s, p)) && Ids(g) == Have(Table(s), p) + Named(nhs)
    ensures AddHash(s, p, nhs, g.hash) && AddGroup(s, p, nhs, g)
  {
  }

  /** The set that an accepted ADD leaves behind, for any order of the maps. */
  ghost predicate AddResult(s: L3, p: Prefix, nhs: seq<Nexthop>, got: set<NhId>) {
    var have := Have(Table(s), p);
    if p in s.routes && Named(nhs) <= have then got == have
    else exists h :: && AddHash(s, p, nhs, h)
                     && Installed(s.groups, have + Named(nhs), |nhs| + SizeOf(s.groups, PointerOf(s, p)), h, got)
  }

  lemma AddResultIs(s: L3, p: Prefix, nhs: seq<Nexthop>, h: nat, got: set<NhId>)
    requires AddHash(s, p, nhs, h) && !(p in s.routes && Named(nhs) <= Have(Table(s), p))
    requires Installed(s.groups, Have(Table(s), p) + Named(nhs), |nhs| + SizeOf(s.groups, PointerOf(s, p)), h, got)
    ensures AddResult(s, p, nhs, got)
  {
  }

  lemma NothingAdded(s: L3, p: Prefix, nhs: seq<Nexthop>)
    requires p in s.routes && Named(nhs) <= Have(Table(s), p)
    ensures AddResult(s, p, nhs, Have(Table(s), p)) && Table(s)[p := Have(Table(s), p)] == Table(s)
  {
  }

  ghost predicate DropResult(s: L3, p: Prefix, nhs: seq<Nexthop>, got: set<NhId>) {
    var o := PointerOf(s, p);
    if o.None? || o.value !in s.groups then got == {}
    else
      var g := s.groups[o.value];
      var n := |DroppedAt(g.entries, Named(nhs))|;
      if g.size > n
      then exists h :: DropHash(s, p, nhs, h) && Installed(s.groups, Ids(g) - Named(nhs), g.size - n, h, got)
      else got == {}
  }

  /** The group an ADD builds: the old entries in some order and the new ids, or, for a new route, the
      request as it is. */
  ghost predicate AddGroup(s: L3, p: Prefix, nhs: seq<Nexthop>, g: NhGroup) {
    && g.size == |nhs| + SizeOf(s.groups, PointerOf(s, p)) && Ids(g) == Have(Table(s), p) + Named(nhs)
    && if p in s.routes then
         exists at :: && Order(EntriesOf(s, p), {}, at)
                      && IdSeq(g.entries) == Pick(EntriesOf(s, p), at) + NewIds(Have(Table(s), p), nhs)
       else IdSeq(g.entries) == NamesOf(nhs)
  }

  /** The group a DELETE_NH builds: what is left, in some order, in as many slots fewer as entries go. */
  ghost predicate DropGroupOf(s: L3, p: Prefix, nhs: seq<Nexthop>, g: NhGroup) {
    && g.size == SizeOf(s.groups, PointerOf(s, p)) - |DroppedAt(EntriesOf(s, p), Named(nhs))|
    && Ids(g) == Have(Table(s), p) - Named(nhs)
    && exists at :: Order(EntriesOf(s, p), Named(nhs), at) && IdSeq(g.entries) == Pick(EntriesOf(s, p), at)
  }

  /** Does the ADD bring nothing new? */
  ghost predicate Known(s: L3, p: Prefix, nhs: seq<Nexthop>) {
    p in s.routes && Named(nhs) <= Have(Table(s), p)
  }

  /** The groups after a request: the old ones, and at most one built for it. */
  ghost predicate AddFrame(s: L3, p: Prefix, nhs: seq<Nexthop>, groups: map<GroupRef, NhGroup>) {
    forall r | r in groups ::
      if r in s.groups then Alike(s.groups[r], groups[r]) else !Known(s, p, nhs) && AddGroup(s, p, nhs, groups[r])
  }

  ghost predicate DropFrame(s: L3, p: Prefix, nhs: seq<Nexthop>, groups: map<GroupRef, NhGroup>) {
    forall r | r in groups ::
      if r in s.groups then Alike(s.groups[r], groups[r]) else DropGroupOf(s, p, nhs, groups[r])
  }

  ghost function AddSize(s: L3, p: Prefix, nhs: seq<Nexthop>): (n: nat) {
    SizeOf(s.groups, PointerOf(s, p)) + if Known(s, p, nhs) then 0 else |nhs|
  }

  ghost function DropSize(s: L3, p: Prefix, nhs: seq<Nexthop>): (n: nat) {
    var size, n := SizeOf(s.groups, PointerOf(s, p)), |DroppedAt(EntriesOf(s, p), Named(nhs))|;
    if size > n then size - n else 0
  }

  lemma HaveIs(s: L3, p: Prefix)
    ensures Have(Table(s), p) == IdsOf(s.groups, PointerOf(s, p))
  {
  }

  lemma NewGroup(s: L3, p: Prefix, nhs: seq<Nexthop>, g: NhGroup)
    requires p !in s.routes && g.size == |nhs| && Ids(g) == Named(nhs) && IdSeq(g.entries) == NamesOf(nhs)
    ensures AddGroup(s, p, nhs, g) && !Known(s, p, nhs)
  {
  }

  lemma AddedGroup(s: L3, p: Prefix, nhs: seq<Nexthop>, g: NhGroup, groups: map<GroupRef, NhGroup>)
    requires AddGroup(s, p, nhs, g) && !Known(s, p, nhs) && Grown(s.groups, groups, Some(g))
    ensures AddFrame(s, p, nhs, groups)
  {
    forall r | r in groups && Alike(g, groups[r]) ensures AddGroup(s, p, nhs, groups[r]) {
      assert Ids(groups[r]) == Ids(g) && IdSeq(groups[r].entries) == IdSeq(g.entries);
    }
  }

  lemma AddedNone(s: L3, p: Prefix, nhs: seq<Nexthop>, groups: map<GroupRef, NhGroup>)
    requires Grown(s.groups, groups, None)
    ensures AddFrame(s, p, nhs, groups)
  {
  }

  lemma SameGroups(s: L3, p: Prefix, nhs: seq<Nexthop>)
    ensures AddFrame(s, p, nhs, s.groups) && DropFrame(s, p, nhs, s.groups) && Grown(s.groups, s.groups, None)
  {
  }

  lemma AddedThenKept(s: L3, p: Prefix, nhs: seq<Nexthop>, mid: map<GroupRef, NhGroup>, groups: map<GroupRef, NhGroup>)
    requires AddFrame(s, p, nhs, mid) && Grown(mid, groups, None)
    ensures AddFrame(s, p, nhs, groups)
  {
    forall r | r in groups && AddGroup(s, p, nhs, mid[r]) ensures AddGroup(s, p, nhs, groups[r]) {
      assert Ids(groups[r]) == Ids(mid[r]) && IdSeq(groups[r].entries) == IdSeq(mid[r].entries);
    }
  }

  lemma DroppedGroup(s: L3, p: Prefix, nhs: seq<Nexthop>, g: NhGroup, groups: map<GroupRef, NhGroup>)
    requires DropGroupOf(s, p, nhs, g) && Grown(s.groups, groups, Some(g))
    ensures DropFrame(s, p, nhs, groups)
  {
    forall r | r in groups && Alike(g, groups[r]) ensures DropGroupOf(s, p, nhs, groups[r]) {
      assert Ids(groups[r]) == Ids(g) && IdSeq(groups[r].entries) == IdSeq(g.entries);
    }
  }

  lemma DroppedNone(s: L3, p: Prefix, nhs: seq<Nexthop>, groups: map<GroupRef, NhGroup>)
    requires Grown(s.groups, groups, None)
    ensures DropFrame(s, p, nhs, groups)
  {
  }

  /** One request, whatever the SDK answers, short of the failed update of a shared group: what becomes
      of the sets, of the width of the route, of the other routes and of the groups. */
  ghost predicate RouteStep(s: L3, a: Action, req: RouteRequest, rc: Errno, t: L3) {
    && Inv(t) && t.hash == s.hash && OthersStay(s.routes, t.routes, req.prefix)
    && (rc != OK ==> Table(t) == Table(s))
    && (rc == OK ==> Outcome(s, a, req, t))
    && Frame(s, a, req, t.groups)
  }

  ghost predicate Frame(s: L3, a: Action, req: RouteRequest, groups: map<GroupRef, NhGroup>) {
    match a
    case Add => AddFrame(s, req.prefix, req.nexthops, groups)
    case DeleteNh => DropFrame(s, req.prefix, req.nexthops, groups)
    case Delete | Unknown => Grown(s.groups, groups, None)
  }

  ghost predicate Outcome(s: L3, a: Action, req: RouteRequest, t: L3) {
    var p, nhs := req.prefix, req.nexthops;
    match a
    case Add =>
      && (exists got :: AddResult(s, p, nhs, got) && Table(t) == Table(s)[p := got])
      && SizeOf(t.groups, PointerOf(t, p)) == AddSize(s, p, nhs)
    case Delete => p in s.routes && Table(t) == Table(s) - {p}
    case DeleteNh =>
      if p in s.routes
      then && (exists got :: DropResult(s, p, nhs, got) && Table(t) == Table(s)[p := got])
           && SizeOf(t.groups, PointerOf(t, p)) == DropSize(s, p, nhs)
      else Table(t) == Table(s)
    case Unknown => false
  }

  /** Is there a group that a new route can share without another look at its next hops? */
  ghost predicate Shareable(s: L3, nhs: seq<Nexthop>) {
    exists r :: && r in s.groups && s.groups[r].hash == Fold(s.hash, NamesOf(nhs)) && s.groups[r].size == |nhs|
                && Named(nhs) <= Ids(s.groups[r])
  }

  /** The answer to an ADD for a known route when the SDK does not fail. */
  ghost function UpdateAnswer(s: L3, p: Prefix, nhs: seq<Nexthop>, hosts: set<int>, maxNh: nat): (rc: Errno) {
    if !Known(s, p, nhs) && |nhs| + SizeOf(s.groups, PointerOf(s, p)) > maxNh then ENOMEM
    else if !AllReachable(nhs, hosts) then EHOSTUNREACH
    else OK
  }

  /** And for a new one: a group to share is taken without looking at the hosts. */
  ghost function GroupAnswer(s: L3, nhs: seq<Nexthop>, hosts: set<int>, maxNh: nat): (rc: Errno) {
    if Shareable(s, nhs) then OK
    else if |nhs| > maxNh then ENOMEM
    else if !AllReachable(nhs, hosts) then EHOSTUNREACH
    else OK
  }

  ghost function AddAnswer(s: L3, req: RouteRequest, hosts: set<int>, maxNh: nat): (rc: Errno) {
    if req.prefix in s.routes then UpdateAnswer(s, req.prefix, req.nexthops, hosts, maxNh)
    else
      var rc := GroupAnswer(s, req.nexthops, hosts, maxNh);
      if rc == OK && !req.wellFormed then EPFNOSUPPORT else rc
  }

  ghost function DropAnswer(s: L3, req: RouteRequest, maxNh: nat): (rc: Errno) {
    if req.prefix in s.routes && DropSize(s, req.prefix, req.nexthops) > maxNh then ENOMEM else OK
  }

  /** The answer to a request when the SDK does not fail. */
  ghost function Answer(s: L3, a: Action, req: RouteRequest, hosts: set<int>, maxNh: nat): (rc: Errno) {
    if req.nexthops == [] then EINVAL
    else match a
      case Add => AddAnswer(s, req, hosts, maxNh)
      case Delete => if req.prefix in s.routes then OK else EFAULT
      case DeleteNh => DropAnswer(s, req, maxNh)
      case Unknown => EINVAL
  }

  /** An accepted ADD names only known hosts, unless its prefix was new and a group could be shared; in
      any other case an unknown host is what the refusal is for, if there is room. */
  lemma AcceptedIsReachable(s: L3, req: RouteRequest, hosts: set<int>, maxNh: nat)
    ensures var known := forall i | 0 <= i < |req.nexthops| && req.nexthops[i].resolved :: req.nexthops[i].egressId in hosts;
      var shared := req.prefix !in s.routes &&
        exists r :: && r in s.groups && s.groups[r].hash == Fold(s.hash, NamesOf(req.nexthops))
                    && s.groups[r].size == |req.nexthops| && Named(req.nexthops) <= Ids(s.groups[r]);
      && (AddAnswer(s, req, hosts, maxNh) == OK ==> known || shared)
      && (|req.nexthops| + SizeOf(s.groups, PointerOf(s, req.prefix)) <= maxNh ==>
            (AddAnswer(s, req, hosts, maxNh) == EHOSTUNREACH <==> !known && !shared))
  {
    assert Shareable(s, req.nexthops) <==>
      exists r :: && r in s.groups && s.groups[r].hash == Fold(s.hash, NamesOf(req.nexthops))
                  && s.groups[r].size == |req.nexthops| && Named(req.nexthops) <= Ids(s.groups[r]);
  }

  /** Looking a route up changes nothing a request depends on. */
  lemma LookupKeeps(s: L3, req: RouteRequest)
    requires Inv(s) && req.prefix in s.routes
    ensures s.routes[req.prefix].refCnt == 1
    ensures var t := Rereference(s, req.prefix, 2);
      && Consistent(t, {req.prefix}, multiset{}, {}) && Table(t) == Table(s) && req.prefix in t.routes
      && t.routes[req.prefix].refCnt == 2
      && OthersStay(s.routes, t.routes, req.prefix)
      && (forall got :: AddResult(t, req.prefix, req.nexthops, got) == AddResult(s, req.prefix, req.nexthops, got))
      && (forall got :: DropResult(t, req.prefix, req.nexthops, got) == DropResult(s, req.prefix, req.nexthops, got))
      && (forall gs :: AddFrame(t, req.prefix, req.nexthops, gs) == AddFrame(s, req.prefix, req.nexthops, gs))
      && (forall gs :: DropFrame(t, req.prefix, req.nexthops, gs) == DropFrame(s, req.prefix, req.nexthops, gs))
      && AddSize(t, req.prefix, req.nexthops) == AddSize(s, req.prefix, req.nexthops)
      && DropSize(t, req.prefix, req.nexthops) == DropSize(s, req.prefix, req.nexthops)
      && (forall hosts, maxNh :: UpdateAnswer(t, req.prefix, req.nexthops, hosts, maxNh)
                              == UpdateAnswer(s, req.prefix, req.nexthops, hosts, maxNh))
  {
    hide Consistent, Table, AddResult, DropResult, AddFrame, DropFrame, AddSize, DropSize;
    RereferenceKeeps(s, req.prefix, true);
    SameResults(s, Rereference(s, req.prefix, 2), req.prefix, req.nexthops);
  }

  lemma SameResults(s: L3, t: L3, p: Prefix, nhs: seq<Nexthop>)
    requires s.groups == t.groups && s.hash == t.hash && Table(s) == Table(t)
    requires PointerOf(s, p) == PointerOf(t, p) && (p in s.routes <==> p in t.routes)
    ensures forall got :: AddResult(s, p, nhs, got) == AddResult(t, p, nhs, got)
    ensures forall got :: DropResult(s, p, nhs, got) == DropResult(t, p, nhs, got)
    ensures AddSize(s, p, nhs) == AddSize(t, p, nhs) && DropSize(s, p, nhs) == DropSize(t, p, nhs)
    ensures forall gs :: AddFrame(t, p, nhs, gs) == AddFrame(s, p, nhs, gs)
    ensures forall gs :: DropFrame(t, p, nhs, gs) == DropFrame(s, p, nhs, gs)
  {
    SameFrames(s, t, p, nhs);
    hide Installed, Order, Pick, Fold, Table, NewIds, AddFrame, DropFrame;
    assert EntriesOf(s, p) == EntriesOf(t, p);
    assert forall h :: AddHash(s, p, nhs, h) == AddHash(t, p, nhs, h);
    assert forall h :: DropHash(s, p, nhs, h) == DropHash(t, p, nhs, h);
    hide AddHash, DropHash;
  }

  lemma SameFrames(s: L3, t: L3, p: Prefix, nhs: seq<Nexthop>)
    requires s.groups == t.groups && s.hash == t.hash && Table(s) == Table(t)
    requires PointerOf(s, p) == PointerOf(t, p) && (p in s.routes <==> p in t.routes)
    ensures forall gs :: AddFrame(t, p, nhs, gs) == AddFrame(s, p, nhs, gs)
    ensures forall gs :: DropFrame(t, p, nhs, gs) == DropFrame(s, p, nhs, gs)
  {
    hide Order, Pick, Table, NewIds, Ids, IdSeq, Alike;
    assert EntriesOf(s, p) == EntriesOf(t, p);
    assert forall g :: AddGroup(s, p, nhs, g) == AddGroup(t, p, nhs, g);
    assert forall g :: DropGroupOf(s, p, nhs, g) == DropGroupOf(t, p, nhs, g);
    hide AddGroup, DropGroupOf;
  }

  lemma RouteFacts(s: L3, p: Prefix)
    requires Inv(s) && p in s.routes
    ensures s.routes[p].refCnt == 1 && Rereference(Rereference(s, p, 2), p, 1) == s
  {
    assert s.routes[p := s.routes[p]] == s.routes;
  }

  lemma ReleaseKeeps(s: L3, p: Prefix)
    requires Consistent(s, {p}, multiset{}, {}) && p in s.routes
    ensures s.routes[p].refCnt == 2
    ensures Inv(Rereference(s, p, 1)) && Table(Rereference(s, p, 1)) == Table(s)
    ensures OthersStay(s.routes, Rereference(s, p, 1).routes, p)
  {
    RereferenceKeeps(s, p, false);
  }

  lemma FreshHave(s: L3, p: Prefix)
    requires p !in s.routes
    ensures Have(Table(s), p) == {} && PointerOf(s, p) == None
  {
  }

  lemma NamedSize(nhs: seq<Nexthop>)
    requires Distinct(nhs)
    ensures |Named(nhs)| == |nhs|
  {
    if nhs != [] {
      var front, last := nhs[..|nhs| - 1], nhs[|nhs| - 1];
      NamedSize(front);
      assert nhs == front + [last];
      assert Named(nhs) == Named(front) + {last.id};
      assert last.id !in Named(front);
    } else {
      assert Named(nhs) == {};
    }
  }

  /** Between exact groups a clean ADD asks for an exact group. */
  lemma CleanAddIsExact(s: L3, req: RouteRequest)
    requires Inv(s) && AllExact(s) && Clean(Table(s), Add, req)
    requires !(Named(req.nexthops) <= Have(Table(s), req.prefix))
    ensures |Have(Table(s), req.prefix) + Named(req.nexthops)|
         == |req.nexthops| + SizeOf(s.groups, PointerOf(s, req.prefix))
  {
    var p, o := req.prefix, PointerOf(s, req.prefix);
    NamedSize(req.nexthops);
    assert Have(Table(s), p) == IdsOf(s.groups, o);
    if o.Some? && o.value in s.groups {
      assert Exact(s.groups[o.value]);
    }
  }

  lemma EmptyAdd(s: L3, req: RouteRequest)
    requires Named(req.nexthops) <= Have(Table(s), req.prefix) && req.prefix !in s.routes
    ensures req.nexthops == [] && SizeOf(s.groups, PointerOf(s, req.prefix)) == 0
  {
    assert req.nexthops != [] ==> req.nexthops[0].id in Named(req.nexthops);
  }

  // ---------------------------------------------------------------- when a request is plain

  /** Some group would be taken for the wanted one although it holds something else. */
  ghost predicate Misleads(groups: map<GroupRef, NhGroup>, wanted: set<NhId>, size: nat, h: nat) {
    exists r :: r in groups && Matches(groups[r], h, size, wanted) && Ids(groups[r]) != wanted
  }

  /** The ADD builds a group, and some order of the old entries gives it the hash and the size of an
      existing group that holds all its ids and more. */
  ghost predicate AddCrowded(s: L3, p: Prefix, nhs: seq<Nexthop>) {
    var have := Have(Table(s), p);
    && !(p in s.routes && Named(nhs) <= have)
    && exists h :: && AddHash(s, p, nhs, h)
                   && Misleads(s.groups, have + Named(nhs), |nhs| + SizeOf(s.groups, PointerOf(s, p)), h)
  }

  /** The same for the group that is left when the named ids go. */
  ghost predicate DropCrowded(s: L3, p: Prefix, nhs: seq<Nexthop>) {
    var o := PointerOf(s, p);
    && o.Some? && o.value in s.groups
    && var g := s.groups[o.value];
       var n := |DroppedAt(g.entries, Named(nhs))|;
       && g.size > n
       && exists h :: DropHash(s, p, nhs, h) && Misleads(s.groups, Ids(g) - Named(nhs), g.size - n, h)
  }

  ghost predicate Crowded(s: L3, a: Action, req: RouteRequest) {
    match a
    case Add => AddCrowded(s, req.prefix, req.nexthops)
    case DeleteNh => DropCrowded(s, req.prefix, req.nexthops)
    case Delete | Unknown => false
  }

  /** The hash function and the map orders permit only the union exactly when the ADD is not crowded. */
  lemma AddIsUnionIff(s: L3, p: Prefix, nhs: seq<Nexthop>)
    ensures (forall got :: AddResult(s, p, nhs, got) ==> got == Have(Table(s), p) + Named(nhs))
       <==> !AddCrowded(s, p, nhs)
  {
    hide AddHash, Table, SizeOf;
    if AddCrowded(s, p, nhs) {
      var wanted, size := Have(Table(s), p) + Named(nhs), |nhs| + SizeOf(s.groups, PointerOf(s, p));
      var h :| AddHash(s, p, nhs, h) && Misleads(s.groups, wanted, size, h);
      var r :| r in s.groups && Matches(s.groups[r], h, size, wanted) && Ids(s.groups[r]) != wanted;
      assert Installed(s.groups, wanted, size, h, Ids(s.groups[r]));
      assert AddResult(s, p, nhs, Ids(s.groups[r]));
    }
  }

  /** A request whose computed hash no group carries leaves exactly the union or the difference. */
  lemma NewHashIsPlain(s: L3, a: Action, req: RouteRequest)
    requires forall h, r | r in s.groups &&
               (AddHash(s, req.prefix, req.nexthops, h) || DropHash(s, req.prefix, req.nexthops, h)) :: s.groups[r].hash != h
    ensures !Crowded(s, a, req)
  {
    hide AddHash, DropHash, Table;
  }

  /** When as many entries are dropped as the group has slots, nothing is left. */
  lemma AllDropped(g: NhGroup, drop: set<NhId>)
    requires GoodGroup(g) && g.size <= |DroppedAt(g.entries, drop)|
    ensures Ids(g) - drop == {}
  {
    KeptCount(g.entries, drop);
    SplitIds(g, drop);
  }

  /** Likewise DELETE_NH is a difference exactly when it is not crowded. */
  lemma DropIsDifferenceIff(s: L3, p: Prefix, nhs: seq<Nexthop>)
    requires Inv(s) && p in s.routes
    ensures (forall got :: DropResult(s, p, nhs, got) ==> got == Table(s)[p] - Named(nhs))
       <==> !DropCrowded(s, p, nhs)
  {
    hide DropHash, RefCountsOk, HardwareOk, HashesOk;
    var o := PointerOf(s, p);
    if o.Some? {
      var g := s.groups[o.value];
      var n := |DroppedAt(g.entries, Named(nhs))|;
      assert GoodGroup(g);
      if g.size <= n {
        AllDropped(g, Named(nhs));
      } else if DropCrowded(s, p, nhs) {
        var wanted := Ids(g) - Named(nhs);
        var h :| DropHash(s, p, nhs, h) && Misleads(s.groups, wanted, g.size - n, h);
        var r :| r in s.groups && Matches(s.groups[r], h, g.size - n, wanted) && Ids(s.groups[r]) != wanted;
        assert Installed(s.groups, wanted, g.size - n, h, Ids(s.groups[r]));
        assert DropResult(s, p, nhs, Ids(s.groups[r]));
      }
    }
  }

  /** The refinement, one request at a time: an uncrowded request has its plain outcome. */
  lemma StepRefines(s: L3, a: Action, req: RouteRequest, rc: Errno, t: L3)
    requires Inv(s) && RouteStep(s, a, req, rc, t) && (rc == OK ==> !Crowded(s, a, req))
    ensures Table(t) == if rc == OK then Apply(Table(s), a, req) else Table(s)
  {
    hide AddResult, DropResult, AddCrowded, DropCrowded, Consistent, Frame, AddSize, DropSize;
    var p := req.prefix;
    if rc == OK && a.Add? {
      AddIsUnionIff(s, p, req.nexthops);
    } else if rc == OK && a.DeleteNh? && p in s.routes {
      DropIsDifferenceIff(s, p, req.nexthops);
    }
  }

  /** The plain run: accepted requests take effect, refused ones do not. */
  function Replay(t: Plain, reqs: seq<(Action, RouteRequest)>, rcs: seq<Errno>): (r: Plain)
    requires |reqs| == |rcs|
  {
    if reqs == [] then t
    else
      var n := |reqs| - 1;
      var before := Replay(t, reqs[..n], rcs[..n]);
      if rcs[n] == OK then Apply(before, reqs[n].0, reqs[n].1) else before
  }

  ghost predicate IsRun(run: seq<L3>, reqs: seq<(Action, RouteRequest)>, rcs: seq<Errno>) {
    && |run| == |reqs| + 1 == |rcs| + 1 && Inv(run[0])
    && forall i | 0 <= i < |reqs| :: RouteStep(run[i], reqs[i].0, reqs[i].1, rcs[i], run[i + 1])
  }

  lemma Shorter(run: seq<L3>, reqs: seq<(Action, RouteRequest)>, rcs: seq<Errno>, n: nat)
    requires IsRun(run, reqs, rcs) && n <= |reqs|
    ensures IsRun(run[..n + 1], reqs[..n], rcs[..n]) && Inv(run[n])
    ensures forall i | 0 <= i < n :: reqs[..n][..i] == reqs[..i] && rcs[..n][..i] == rcs[..i]
  {
    hide Inv;
    assert n > 0 ==> RouteStep(run[n - 1], reqs[n - 1].0, reqs[n - 1].1, rcs[n - 1], run[n]);
  }

  /** Over every run of uncrowded requests the shared groups are the plain map. */
  lemma {:induction false} RunRefines(run: seq<L3>, reqs: seq<(Action, RouteRequest)>, rcs: seq<Errno>)
    requires IsRun(run, reqs, rcs)
    requires forall i | 0 <= i < |reqs| && rcs[i] == OK :: !Crowded(run[i], reqs[i].0, reqs[i].1)
    ensures Table(run[|reqs|]) == Replay(Table(run[0]), reqs, rcs)
  {
    hide Inv, RouteStep, Crowded, Table, Apply;
    if |reqs| > 0 {
      var m := |reqs| - 1;
      Shorter(run, reqs, rcs, m);
      RunRefines(run[..m + 1], reqs[..m], rcs[..m]);
      assert RouteStep(run[m], reqs[m].0, reqs[m].1, rcs[m], run[m + 1]) by { RunStep(run, reqs, rcs, m); }
      StepRefines(run[m], reqs[m].0, reqs[m].1, rcs[m], run[m + 1]);
    }
  }

  lemma RunStep(run: seq<L3>, reqs: seq<(Action, RouteRequest)>, rcs: seq<Errno>, i: nat)
    requires IsRun(run, reqs, rcs) && i < |reqs|
    ensures RouteStep(run[i], reqs[i].0, reqs[i].1, rcs[i], run[i + 1])
  {
  }

  // ---------------------------------------------------------------- exact groups

  /** A group as large as its number of ids is taken only for itself. */
  lemma ExactNotMisled(s: L3, wanted: set<NhId>, h: nat)
    requires Inv(s)
    ensures !Misleads(s.groups, wanted, |wanted|, h)
  {
    if r :| r in s.groups && Matches(s.groups[r], h, |wanted|, wanted) && Ids(s.groups[r]) != wanted {
      ExactReuse(s, {}, wanted, r);
    }
  }

  /** Between exact groups a clean request is never crowded, whatever the hash function. */
  lemma CleanIsUncrowded(s: L3, a: Action, req: RouteRequest)
    requires Inv(s) && AllExact(s) && Clean(Table(s), a, req)
    ensures !Crowded(s, a, req)
  {
    hide AddHash, DropHash, Misleads, Consistent, AllExact;
    var p, nhs := req.prefix, req.nexthops;
    var have := Have(Table(s), p);
    if a.Add? && !(p in s.routes && Named(nhs) <= have) {
      if Named(nhs) <= have { EmptyAdd(s, req); } else { CleanAddIsExact(s, req); }
      forall h ensures !Misleads(s.groups, have + Named(nhs), |have + Named(nhs)|, h) {
        ExactNotMisled(s, have + Named(nhs), h);
      }
    } else if a.DeleteNh? && PointerOf(s, p).Some? && PointerOf(s, p).value in s.groups {
      DropIsExact(s, p, nhs);
      var wanted := Ids(s.groups[PointerOf(s, p).value]) - Named(nhs);
      forall h ensures !Misleads(s.groups, wanted, |wanted|, h) {
        ExactNotMisled(s, wanted, h);
      }
    }
  }

  lemma DropIsExact(s: L3, p: Prefix, nhs: seq<Nexthop>)
    requires Inv(s) && AllExact(s) && PointerOf(s, p).Some? && PointerOf(s, p).value in s.groups
    ensures var g := s.groups[PointerOf(s, p).value];
      |Ids(g) - Named(nhs)| == g.size - |DroppedAt(g.entries, Named(nhs))|
  {
    var g := s.groups[PointerOf(s, p).value];
    assert GoodGroup(g) && Exact(g);
    ExactAfterDrop(g, Named(nhs));
  }

  /** A clean request between exact groups builds an exact group. */
  lemma CleanKeepsExact(s: L3, a: Action, req: RouteRequest, groups: map<GroupRef, NhGroup>)
    requires Inv(s) && AllExact(s) && Clean(Table(s), a, req) && Frame(s, a, req, groups)
    ensures forall r | r in groups :: Exact(groups[r])
  {
    hide Consistent, Order, Pick, IdSeq, NewIds;
    var p, nhs := req.prefix, req.nexthops;
    forall r | r in groups ensures Exact(groups[r]) {
      if r in s.groups {
        assert Exact(s.groups[r]) && Ids(groups[r]) == Ids(s.groups[r]);
      } else if a.Add? {
        if Named(nhs) <= Have(Table(s), p) { EmptyAdd(s, req); } else { CleanAddIsExact(s, req); }
      } else {
        SomethingLeft(s, p, nhs, groups[r]);
      }
    }
  }

  lemma SomethingLeft(s: L3, p: Prefix, nhs: seq<Nexthop>, g: NhGroup)
    requires Inv(s) && AllExact(s) && DropGroupOf(s, p, nhs, g)
    ensures Exact(g)
  {
    hide Order, Pick, IdSeq;
    var o := PointerOf(s, p);
    if o.Some? && o.value in s.groups {
      DropIsExact(s, p, nhs);
    } else {
      assert EntriesOf(s, p) == [] && DroppedAt([], Named(nhs)) == {};
    }
  }

  /** From exact groups, requests that are clean against the plain map keep the groups exact, so the
      plain map alone tells that the run refines it. */
  lemma {:induction false} CleanRunRefines(run: seq<L3>, reqs: seq<(Action, RouteRequest)>, rcs: seq<Errno>)
    requires IsRun(run, reqs, rcs) && AllExact(run[0])
    requires forall i | 0 <= i < |reqs| :: Clean(Replay(Table(run[0]), reqs[..i], rcs[..i]), reqs[i].0, reqs[i].1)
    ensures AllExact(run[|reqs|]) && Table(run[|reqs|]) == Replay(Table(run[0]), reqs, rcs)
  {
    hide Inv, Outcome, Crowded, Table, Apply, Clean, Frame;
    if |reqs| > 0 {
      var m := |reqs| - 1;
      Shorter(run, reqs, rcs, m);
      CleanRunRefines(run[..m + 1], reqs[..m], rcs[..m]);
      RunStep(run, reqs, rcs, m);
      CleanIsUncrowded(run[m], reqs[m].0, reqs[m].1);
      CleanKeepsExact(run[m], reqs[m].0, reqs[m].1, run[m + 1].groups);
      StepRefines(run[m], reqs[m].0, reqs[m].1, rcs[m], run[m + 1]);
    }
  }

  // ---------------------------------------------------------------- the hardware view

  /** The next hops the hardware balances `p` over: the contents of its slot range. */
  function Forwarded(hw: Hardware, p: Prefix): (r: set<NhId>)
    requires p in hw.routes
  {
    set i | i in Span(hw.routes[p].nhId, hw.routes[p].ecmpSize) && i in hw.nh :: hw.nh[i]
  }

  /** Slots of the route's range beyond its entries hold nothing but the route's own next hops. */
  ghost predicate Quiet(s: L3, p: Prefix) {
    var o := PointerOf(s, p);
    o.Some? && o.value in s.groups ==>
      var g := s.groups[o.value];
      forall i | i in s.hw.nh && g.nhId + |g.entries| <= i < g.nhId + g.size :: s.hw.nh[i] in Ids(g)
  }

  /** The hardware forwards every prefix to its whole set, and to nothing else exactly when the
      spare slots of its group are quiet. */
  lemma HardwareForwardsIff(s: L3, p: Prefix)
    requires Inv(s) && p in s.routes
    ensures p in s.hw.routes && Table(s)[p] <= Forwarded(s.hw, p)
    ensures Forwarded(s.hw, p) == Table(s)[p] <==> Quiet(s, p)
  {
    hide RefCountsOk, HashesOk;
    var o := s.routes[p].group;
    if o.Some? {
      var g := s.groups[o.value];
      assert GoodGroup(g) && Programmed(s.hw.nh, g);
      forall x | x in Ids(g) ensures x in Forwarded(s.hw, p) {
        var e :| e in g.entries && e.id == x;
        var i :| 0 <= i < |g.entries| && g.entries[i] == e;
        assert InSpan(e.slot, g.nhId, g.size) && e.slot in Slots(g);
      }
      forall i | i in Slots(g) && i in s.hw.nh && i < g.nhId + |g.entries| ensures s.hw.nh[i] in Ids(g) {
        assert g.entries[i - g.nhId].slot == i;
        assert g.entries[i - g.nhId] in g.entries;
      }
      forall i | i in s.hw.nh && g.nhId + |g.entries| <= i < g.nhId + g.size ensures s.hw.nh[i] in Forwarded(s.hw, p) {
        assert InSpan(i, g.nhId, g.size) && i in Slots(g);
      }
    }
  }

  /** Where only the next hops of live groups are programmed, spare slots are empty: the hardware
      forwards every prefix to exactly its set. */
  lemma TidyForwards(s: L3, p: Prefix)
    requires Inv(s) && Tidy(s.groups, s.hw.nh) && p in s.routes
    ensures p in s.hw.routes && Forwarded(s.hw, p) == Table(s)[p]
  {
    HardwareForwardsIff(s, p);
    hide RefCountsOk, HashesOk, HardwareOk, Table, Forwarded;
    var o := PointerOf(s, p);
    if o.Some? {
      var g := s.groups[o.value];
      forall i | i in s.hw.nh && i in Slots(g) ensures Held(g, i) {
        var r :| r in s.groups && Held(s.groups[r], i);
        OneOwner(s, r, o.value, i);
      }
      assert forall i | g.nhId + |g.entries| <= i < g.nhId + g.size :: InSpan(i, g.nhId, g.size) && i in Slots(g);
    }
  }

  lemma OneOwner(s: L3, q: GroupRef, r: GroupRef, i: nat)
    requires SlotsOk(s, {}) && q in s.groups && r in s.groups && Held(s.groups[q], i) && i in Slots(s.groups[r])
    ensures q == r
  {
    assert GoodGroup(s.groups[q]);
    assert InSpan(i, s.groups[q].nhId, s.groups[q].size) && i in Slots(s.groups[q]);
  }

  /** Between exact groups there are no spare slots. */
  lemma HardwareForwards(s: L3, p: Prefix)
    requires Inv(s) && AllExact(s) && p in s.routes
    ensures p in s.hw.routes && Forwarded(s.hw, p) == Table(s)[p]
  {
    HardwareForwardsIff(s, p);
    var o := s.routes[p].group;
    if o.Some? {
      assert Exact(s.groups[o.value]) && GoodGroup(s.groups[o.value]);
      IdsBound(s.groups[o.value]);
    }
  }

  /** One clean request between exact groups. */
  lemma CleanStep(s: L3, a: Action, req: RouteRequest, rc: Errno, t: L3)
    requires Inv(s) && AllExact(s) && Clean(Table(s), a, req) && RouteStep(s, a, req, rc, t)
    ensures AllExact(t) && Table(t) == if rc == OK then Apply(Table(s), a, req) else Table(s)
  {
    hide Consistent, Table, Outcome, Crowded, Frame, Clean;
    CleanIsUncrowded(s, a, req);
    CleanKeepsExact(s, a, req, t.groups);
    StepRefines(s, a, req, rc, t);
  }

  // ---------------------------------------------------------------- when reuse goes wrong

  const ZERO: (NhId, nat) -> nat := (id: NhId, h: nat) => 0

  lemma ZeroFold(ids: seq<NhId>)
    ensures Fold(ZERO, ids) == 0
  {
  }

  lemma AnyHashIsZero(s: L3, p: Prefix, nhs: seq<Nexthop>, h: nat)
    requires s.hash == ZERO
    ensures AddHash(s, p, nhs, h) || DropHash(s, p, nhs, h) ==> h == 0
  {
    forall ids ensures Fold(ZERO, ids) == 0 { ZeroFold(ids); }
  }

  /** A route with next hops has a group, which holds them and, with a constant hash, has hash 0. */
  lemma GroupOf(s: L3, p: Prefix) returns (r: GroupRef)
    requires Inv(s) && s.hash == ZERO && p in s.routes && Table(s)[p] != {}
    ensures PointerOf(s, p) == Some(r) && r in s.groups && Ids(s.groups[r]) == Table(s)[p] && s.groups[r].hash == 0
    ensures SizeOf(s.groups, PointerOf(s, p)) == s.groups[r].size && EntriesOf(s, p) == s.groups[r].entries
    ensures AllExact(s) ==> s.groups[r].size == |s.groups[r].entries| == |Table(s)[p]|
  {
    hide RefCountsOk, HardwareOk;
    r := s.routes[p].group.value;
    assert Hashed(s.hash, s.groups[r]);
    ZeroFold(IdSeq(s.groups[r].entries));
    assert GoodGroup(s.groups[r]);
    IdsBound(s.groups[r]);
    assert AllExact(s) ==> Exact(s.groups[r]);
  }

  /** With two routes every group is that of one of them. */
  lemma OneOfTwo(s: L3, p: Prefix, q: Prefix, r: GroupRef)
    requires Inv(s) && s.routes.Keys == {p, q} && r in s.groups
    ensures PointerOf(s, p) == Some(r) || PointerOf(s, q) == Some(r)
  {
    hide SlotsOk, HardwareOk, HashesOk;
    HasRoute(s, {}, {}, r);
    var x :| x in RoutesTo(s.routes, r);
  }

  lemma Letters()
    ensures "A" != "B" && "A" != "C" && "B" != "C" && "p" != "q"
    ensures |{"A"}| == 1 && |{"A", "B"}| == 2 && |{"A", "B", "C"}| == 3
  {
    assert "A"[0] != "B"[0] && "A"[0] != "C"[0] && "B"[0] != "C"[0] && "p"[0] != "q"[0];
  }

  function Hop(id: NhId): (n: Nexthop) {
    Nexthop(id, false, 0)
  }

  const JUST_A := [Hop("A")]
  const JUST_B := [Hop("B")]
  const A_AND_B := [Hop("A"), Hop("B")]
  const A_TO_C := [Hop("A"), Hop("B"), Hop("C")]

  lemma Hops()
    ensures Named(JUST_A) == {"A"} && Named(JUST_B) == {"B"}
    ensures Named(A_AND_B) == {"A", "B"} && Named(A_TO_C) == {"A", "B", "C"}
    ensures Distinct(JUST_A) && Distinct(JUST_B) && Distinct(A_AND_B) && Distinct(A_TO_C)
    ensures forall hosts :: AllReachable(JUST_A, hosts) && AllReachable(A_AND_B, hosts) && AllReachable(A_TO_C, hosts)
  {
    Letters();
    assert JUST_A[0] in JUST_A && JUST_B[0] in JUST_B && A_AND_B[0] in A_AND_B && A_AND_B[1] in A_AND_B;
    assert A_TO_C[0] in A_TO_C && A_TO_C[1] in A_TO_C && A_TO_C[2] in A_TO_C;
  }

  lemma RoutesAre(s: L3, t: Plain)
    requires Table(s) == t
    ensures s.routes.Keys == t.Keys
  {
    assert s.routes.Keys == Table(s).Keys;
  }

  /** Two routes, to {A} and to {A, B, C}. Adding A and B to the first asks for 1 + 2 slots. With a
      constant hash the group of the second route is the only match, so the first route can only end
      up with C as well. */
  lemma MixedAddOvershoots(s: L3, got: set<NhId>)
    requires Inv(s) && AllExact(s) && s.hash == ZERO && Table(s) == map["p" := {"A"}, "q" := {"A", "B", "C"}]
    requires AddResult(s, "p", A_AND_B, got)
    ensures got == {"A", "B", "C"}
  {
    hide AddHash, Consistent, AllExact, Table, Ids, Named;
    Letters();
    Hops();
    RoutesAre(s, Table(s));
    var gp := GroupOf(s, "p");
    var gq := GroupOf(s, "q");
    assert {"A"} + {"A", "B"} == {"A", "B"} && "B" !in {"A"};
    var h :| AddHash(s, "p", A_AND_B, h) && Installed(s.groups, {"A", "B"}, 3, h, got);
    AnyHashIsZero(s, "p", A_AND_B, h);
    assert Matches(s.groups[gq], 0, 3, {"A", "B"});
    var r :| r in s.groups && Matches(s.groups[r], 0, 3, {"A", "B"}) && Ids(s.groups[r]) == got;
    OneOfTwo(s, "p", "q", r);
  }

  /** Routes to {A, B} and, in three slots, to {A, B}: what adding A and B to a route to {A} leaves. */
  ghost predicate SpareSlot(s: L3) {
    && s.hash == ZERO && Table(s) == map["p" := {"A", "B"}, "q" := {"A", "B"}]
    && SizeOf(s.groups, PointerOf(s, "p")) == 3 && SizeOf(s.groups, PointerOf(s, "q")) == 2 && |EntriesOf(s, "p")| == 2
  }

  lemma MixedAddSpares(s: L3, t: L3)
    requires Inv(s) && AllExact(s) && s.hash == ZERO && Table(s) == map["q" := {"A", "B"}, "p" := {"A"}]
    requires RouteStep(s, Add, RouteRequest("p", A_AND_B, true), OK, t)
    ensures SpareSlot(t)
  {
    hide AddHash, Consistent, AllExact, Table, Ids, Named, AddGroup;
    Letters();
    Hops();
    RoutesAre(s, Table(s));
    var gp := GroupOf(s, "p");
    var gq := GroupOf(s, "q");
    assert {"A"} + {"A", "B"} == {"A", "B"} && "B" !in {"A"};
    var got :| AddResult(s, "p", A_AND_B, got) && Table(t) == Table(s)["p" := got];
    var h :| AddHash(s, "p", A_AND_B, h) && Installed(s.groups, {"A", "B"}, 3, h, got);
    forall r | r in s.groups ensures s.groups[r].size != 3 { OneOfTwo(s, "p", "q", r); }
    RoutesAre(t, Table(t));
    var tp := GroupOf(t, "p");
    var tq := GroupOf(t, "q");
    assert t.groups[tq].size == 2;
    assert tp !in s.groups;
    BuiltEntries(s, t.groups[tp]);
  }

  lemma BuiltEntries(s: L3, g: NhGroup)
    requires "p" in s.routes && Have(Table(s), "p") == {"A"} && |EntriesOf(s, "p")| == 1 && AddGroup(s, "p", A_AND_B, g)
    ensures |g.entries| == 2
  {
    hide Table, NewIds, KeptAt;
    var at: seq<nat> :| Order(EntriesOf(s, "p"), {}, at)
           && IdSeq(g.entries) == Pick(EntriesOf(s, "p"), at) + NewIds({"A"}, A_AND_B);
    NoDupSize(at);
    NothingDropped(EntriesOf(s, "p"));
    Letters();
    NewIdsAre();
    assert |IdSeq(g.entries)| == |at| + 1;
  }

  lemma NewIdsAre()
    ensures NewIds({"A"}, A_AND_B) == ["B"]
  {
    Letters();
    assert A_AND_B[..1] == JUST_A && JUST_A[..0] == [];
    assert NewIds({"A"}, JUST_A) == [];
    Hops();
  }

  /** Removing B from the first route asks for two slots. With a constant hash the group of the
      second route is the only match, so B stays. */
  lemma DropUndershoots(s: L3, got: set<NhId>)
    requires Inv(s) && SpareSlot(s) && DropResult(s, "p", JUST_B, got)
    ensures got == {"A", "B"}
  {
    hide DropHash, Consistent, Table, Named, Ids, DroppedAt;
    Letters();
    Hops();
    RoutesAre(s, Table(s));
    var gp := GroupOf(s, "p");
    var gq := GroupOf(s, "q");
    OneIsB(s.groups[gp]);
    assert {"A", "B"} - {"B"} == {"A"};
    var h :| DropHash(s, "p", JUST_B, h) && Installed(s.groups, {"A"}, 2, h, got);
    AnyHashIsZero(s, "p", JUST_B, h);
    assert Matches(s.groups[gq], 0, 2, {"A"});
    var r :| r in s.groups && Matches(s.groups[r], 0, 2, {"A"}) && Ids(s.groups[r]) == got;
    OneOfTwo(s, "p", "q", r);
  }

  lemma OneIsB(g: NhGroup)
    requires |g.entries| == 2 && Ids(g) == {"A", "B"}
    ensures |DroppedAt(g.entries, {"B"})| == 1
  {
    Letters();
    var x, y := g.entries[0].id, g.entries[1].id;
    assert "A" in Ids(g) && "B" in Ids(g);
    assert (x == "A" && y == "B") || (x == "B" && y == "A");
    assert DroppedAt(g.entries, {"B"}) == if x == "B" then {0} else {1};
  }
}

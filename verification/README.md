# OpenSwitch XPliant plugin: verified models of its tables

The plugin keeps software tables that must agree with the tables of a switch ASIC, and it shares, counts,
relocates and reconciles entries in both. This project models that logic in Dafny and proves what holds at every
boundary of every handler, over whole runs, and for every answer the ASIC's SDK may give.

The SDK is modelled as a small hardware state behind the software one. Calls that may fail do so
nondeterministically; the constants `reliable` and `removes` of a class stand for an SDK whose calls (or removals)
always succeed, so that contracts can also say when an operation must succeed. Hash functions are uninterpreted and hash-map iteration
order is arbitrary. Each handler is one atomic step.

| module | file | subject |
|---|---|---|
| `NhGroups`, `RouteSpec`, `L3Routes` | `NhGroups.dfy`, `RouteSpec.dfy`, `L3Manager.dfy` | routes that share copy-on-write ECMP next-hop groups, and their refinement of a plain map from prefix to set of next hops |
| `Hosts`, `SecondaryAddrs` | `Hosts.dfy`, `SecondaryAddrs.dfy` | host entries with immutable ids and relocatable hardware indexes; secondary addresses that own them |
| `MacTable`, `EventLog`, `Ageing` | `MacTable.dfy`, `EventLog.dfy`, `Ageing.dfy` | the forwarding database, its two-buffer event log, the ageing parameters |
| `Bitmap`, `Vlan` | `Bitmap.dfy`, `Vlan.dfy` | 4096-bit VLAN bitmaps as words, and reconciliation of trunks with existing VLANs |
| `AclCompile`, `AclLifecycle` | `AclCompile.dfy`, `AclLifecycle.dfy` | compiling access lists to TCAM entries, and the life of lists, ids and interfaces |
| `Lag`, `Bundles` | `Lag.dfy`, `Bundles.dfy` | LAG membership; ports partitioned by bundles |
| `Common`, `Lists` | `Common.dfy` | shared vocabulary |

Some properties one would expect do not hold of the code as it stands. For each, the model keeps the code's
behaviour, gives a witness, and states the exact boundary:

* An ADD of next hops to a route leaves the union, and a DELETE_NH the difference, if and only if no order of the old
  entries gives the group being built the hash and the size of an existing group that holds all its ids and more:
  `RouteSpec.AddIsUnionIff` and `RouteSpec.DropIsDifferenceIff`, for a given hash function. The cause is that a new
  group is sized as old size plus request length although an id may be named that the route already has, so that
  size and ids no longer determine each other. In `L3Routes.Overshoot` the request handler answers OK and leaves a next
  hop nobody asked for, in `L3Routes.Undershoot` it answers OK and keeps the one that was to go.
* A rule of an access list keeps its meaning in the TCAM if and only if it asks for no type of service, whose mask is
  copied without being inverted, for no TCP flags, class of service or MAC address, which the key never compares, and
  its ports are free, equal to one port, or in a range of one port: `AclCompile.FaithfulIff`, where `TosUnfaithful`,
  `UnseenIsMisread`, `FirstIsMisread` and `RangeIsMisread` return the packet. Validation refuses the other port
  operators only; rules with any of the other fields are accepted and misread.
* Applying a list keeps the interface counts if and only if the place has none yet, removing one if and only if it is
  the one applied there, and replacing one if and only if, besides, no error status but "unsupported" is passed in
  (a rejected replacement at a place without interfaces changes nothing whatever list it names): the contracts of `AclLifecycle.Classifier.Apply`, `Remove` and `Replace` are equivalences, and
  `AclLifecycle.ForeignStatus` is a sequence of calls that ends with a wrong count.
* Reconfiguring secondary addresses leaves the hosts that others asked for alone if and only if no dropped address
  holds the id of such a host, as one may whose own host add failed: `SecondaryAddrs.Port.Configure`, with the calls
  of `SecondaryAddrs.StaleDrop`.
* Inserting a VLAN/MAC pair keeps the pairs unique if and only if the pair was not in the table:
  `MacTable.MacLearning.Insert`. Learning looks the pair up first.

One more concerns an SDK failure: when the hardware refuses to update a route after an existing group was reused,
the code deletes the shared group instead of dropping one reference. `L3Routes.L3Manager.RouteEntryAction` reports
this as `dangling`, and states that the invariant is then lost and that nothing else can lose it.

## Model

| member | source | states |
|---|---|---|
| `RouteSpec.RunRefines` | src/ops-xp-routing.c:1209-1254 | over every run whose accepted requests are uncrowded, the shared groups stand for the plain map in which accepted ADD is union, DELETE_NH difference, DELETE removal, and refused requests are nothing |
| `RouteSpec.CleanRunRefines` | src/ops-xp-routing.c:1209-1254 | from exact groups a condition on the plain map alone is enough, for every hash function: each ADD names distinct ids that are all known or all new; the groups stay exact |
| `RouteSpec.StepRefines` | src/ops-xp-routing.c:1026-1191 | the same for one request: an uncrowded request has its plain outcome, no other prefix changes, and a refused request changes no set |
| `RouteSpec.CleanIsUncrowded` | src/ops-xp-routing.c:675-702 | between exact groups a clean request is never crowded, whatever the hash function |
| `RouteSpec.CleanKeepsExact` | src/ops-xp-routing.c:740-820 | the group that a clean request builds between exact groups is exact |
| `RouteSpec.DropIsDifferenceIff` | src/ops-xp-routing.c:1108-1187 | for the given hash function and over all map orders DELETE_NH is a difference if and only if no group has the size and hash of the one being built and holds all its ids and more; in particular whenever nothing is left |
| `RouteSpec.CleanAddIsExact` | src/ops-xp-routing.c:740-744 | for a clean ADD that brings something new, between exact groups, old size plus request length is the number of resulting ids |
| `RouteSpec.AddIsUnionIff` | src/ops-xp-routing.c:675-702 | for the given hash function and over all map orders an ADD is a union if and only if no group has the size and hash of the one being built and holds all its ids and more |
| `RouteSpec.NewHashIsPlain` | src/ops-xp-routing.c:650-690 | a request under whose computed hashes no group is filed leaves exactly the union or the difference |
| `RouteSpec.MixedAddOvershoots` | src/ops-xp-routing.c:740-744 | in every state of two routes with exact groups, to {A} and to {A, B, C}, and a constant hash, adding A and B to the first can only leave C, too |
| `L3Routes.Overshoot` | src/ops-xp-routing.c:704-853 | three accepted requests to a new manager lead there, the last one answering OK and installing a next hop nobody asked for |
| `RouteSpec.MixedAddSpares` | src/ops-xp-routing.c:740-744 | adding A and B to a route to {A} beside a route to {A, B} leaves a group of two next hops in three slots |
| `RouteSpec.DropUndershoots` | src/ops-xp-routing.c:1108-1160 | in such a state, with a constant hash, removing B can only keep it |
| `L3Routes.Undershoot` | src/ops-xp-routing.c:1077-1191 | four accepted requests to a new manager lead there, the last one answering OK with the next hop still there |
| `RouteSpec.HardwareForwardsIff` | src/ops-xp-routing.c:496-517 | the hardware forwards every prefix to all of its next hops, and to nothing else if and only if spare slots of its group hold nothing foreign |
| `RouteSpec.TidyForwards` | src/ops-xp-routing.c:457-517 | where only the next hops of live groups are programmed, which a manager with a reliable SDK keeps from the start, the hardware forwards every prefix to exactly its next hops, spare slots or not |
| `RouteSpec.HardwareForwards` | src/ops-xp-routing.c:496-517 | between exact groups the slot range of a route holds exactly its next hops, whatever the SDK answered |
| `NhGroups.InsertGroupKeeps` | src/ops-xp-routing.c:496-517 | publishing a group turns held slots into owned ones and keeps counts, disjointness and hardware contents |
| `NhGroups.UnrefGroupKeeps` | src/ops-xp-routing.c:485-493 | dropping a reference keeps counts equal to pointing routes, and the last one returns exactly the group's slots |
| `NhGroups.PointRouteKeeps` | src/ops-xp-routing.c:934-962 | a route taking over a held reference keeps every count equal to the number of pointing routes |
| `NhGroups.SwapGroupKeeps` | src/ops-xp-routing.c:822-838 | unreferencing the old group and then moving the route keeps the invariant and changes that route's set only |
| `NhGroups.ExactReuse` | src/ops-xp-routing.c:633-702 | a group that contains the wanted ids and has their number as size holds exactly those ids |
| `NhGroups.ExactAfterDrop` | src/ops-xp-routing.c:1108-1143 | the copy without the dropped ids is exact again |
| `NhGroups.DanglingBreaks` | src/ops-xp-routing.c:830-834 | a route left pointing at a deleted group contradicts the invariant |
| `L3Routes.L3Manager.NhGroupAlloc` | src/ops-xp-routing.c:399-429 | a fresh, unused slot range of the requested size, or nothing changes; refused above the per-route maximum |
| `L3Routes.L3Manager.NhInsert` | src/ops-xp-routing.c:531-550 | the next hop gets the next slot of the range, a group with room never outgrows its allocation, and its hash stays that of its ids in slot order |
| `L3Routes.L3Manager.NhGroupDelete` | src/ops-xp-routing.c:457-483 | the group leaves the map, its slots are cleared and returned, no other slot is touched; nothing stays programmed when the SDK does not fail |
| `L3Routes.L3Manager.NhGroupUnref` | src/ops-xp-routing.c:485-493 | the last reference deletes, any other is counted down |
| `L3Routes.L3Manager.NhGroupAdd` | src/ops-xp-routing.c:496-517 | every slot of the group is programmed before it is published; on failure the map is unchanged |
| `L3Routes.L3Manager.NhGroupLookup` | src/ops-xp-routing.c:633-702 | some group with that hash, size and all those ids, with one more reference; none only if there is none |
| `L3Routes.L3Manager.CopyEntries` | src/ops-xp-routing.c:750-761 | the copy holds exactly the ids that are not dropped, in some order of the old entries, with the hash of that order |
| `L3Routes.L3Manager.AppendNew` | src/ops-xp-routing.c:770-802 | named ids that are not there yet are appended in the order of their first mention; refused exactly if some next hop names an unknown host |
| `L3Routes.L3Manager.ShareOrAdd` | src/ops-xp-routing.c:804-820 | a group with the same hash, size and all ids is shared if there is one, and only otherwise the new one is published; one reference either way, the unused range is returned, and every other group is as it was |
| `L3Routes.L3Manager.Repoint` | src/ops-xp-routing.c:822-838 | on success the route has the new set; on failure nothing changed, unless a reused group was deleted under other routes |
| `L3Routes.L3Manager.BuildUpdate` | src/ops-xp-routing.c:735-802 | the new group holds the union in old size plus request length slots, hashed as some map order gives; an unknown host frees the range |
| `L3Routes.L3Manager.RefreshGroup` | src/ops-xp-routing.c:763-850 | a request without new ids changes no set, no slot and no count; EHOSTUNREACH exactly if a resolved next hop names an unknown host |
| `L3Routes.L3Manager.RouteUpdate` | src/ops-xp-routing.c:704-853 | the resulting set is that of a matching group if one exists under the computed hash, and the union otherwise, in old size plus request length slots; no other route and no existing group changes; every error leaves all sets alone; succeeds when the SDK does, hosts are known and the group fits |
| `L3Routes.L3Manager.Extend` | src/ops-xp-routing.c:735-838 | the part of this for a request that brings something new |
| `L3Routes.L3Manager.AcquireGroup` | src/ops-xp-routing.c:872-907 | an existing group with these ids, hash and size, or else a new one, which is refused if it is too large (ENOMEM) or names an unknown host (EHOSTUNREACH); held by one reference, and no slot lost on any error path |
| `L3Routes.L3Manager.RouteAdd` | src/ops-xp-routing.c:855-964 | a new prefix gets a permitted set, or nothing changes and the group reference is given back; accepted only if its group was shared or fits and names known hosts, and if the prefix can be read |
| `L3Routes.L3Manager.RouteDelete` | src/ops-xp-routing.c:989-1014 | the prefix and its reference go, even if the hardware refuses; no other prefix changes |
| `RouteSpec.LookupKeeps` | src/ops-xp-routing.c:966-987 | the reference that a lookup takes changes no set and no outcome a request can have |
| `RouteSpec.ReleaseKeeps` | src/ops-xp-routing.c:1016-1023 | giving that reference back restores the invariant of request boundaries and changes no set |
| `L3Routes.L3Manager.RouteUnref` | src/ops-xp-routing.c:1016-1023 | gives the reference back, and the last one deletes the route |
| `L3Routes.L3Manager.AddRouteEntry` | src/ops-xp-routing.c:1025-1047 | an ADD is a step of the specification whatever the SDK answers, but for the failed update of a reused group; what is to be refused is refused, and with a reliable SDK the answer is exactly determined |
| `L3Routes.L3Manager.DeleteRouteEntry` | src/ops-xp-routing.c:1049-1074 | lookup and two unreferences delete exactly a route whose own count is 1 |
| `L3Routes.L3Manager.BuildDrop` | src/ops-xp-routing.c:1108-1143 | the group that remains has the difference, and a size reduced by the number of dropped entries |
| `L3Routes.L3Manager.DeleteNhEntry` | src/ops-xp-routing.c:1076-1191 | DELETE_NH is a step of the specification, with an unknown prefix accepted and an emptied route kept without a group; with a reliable SDK only a group above the maximum is refused |
| `L3Routes.L3Manager.RouteEntryAction` | src/ops-xp-routing.c:1208-1254 | every request is a specified step, which fixes the sets, the width of the route, the other routes and the groups, or loses the invariant through the one known failure; an accepted ADD names only known hosts unless its prefix was new and a group could be shared; with a reliable SDK nothing leaks, nothing stays programmed and the answer is exactly determined |
| `RouteSpec.AcceptedIsReachable` | src/ops-xp-routing.c:553-590 | an accepted ADD names known hosts only, or its prefix was new and a group could be shared; where there is room, it is refused as unreachable exactly if neither holds |
| `L3Routes.L3Manager.Destroy` | src/ops-xp-routing.c:131-151 | destroying all routes leaves the group map empty and in hardware only slots whose destroy call failed, and no programmed slot when the SDK does not fail |
| `Hosts.RunNames` | src/ops-xp-routing.c:192-397 | over every run the ids stand for exactly what the accepted adds and deletes say, live and retired ids partition 0..next, and each host is in hardware at the index on record |
| `Hosts.StepKeeps` | src/ops-xp-routing.c:192-397 | each call, described by its effect on tables and free list, keeps the partition and the indexes, and an add never reuses a live id |
| `Hosts.IdIsStable` | src/ops-xp-routing.c:224-397 | over every run that does not delete it, an id names the same host, which is in hardware at the index the software records |
| `Hosts.IdIsNotReissued` | src/ops-xp-routing.c:192-220 | a live id is handed out again only after it was deleted |
| `Hosts.HostTable.Alloc` | src/ops-xp-routing.c:192-207 | the last retired id, or the next new one; never a live one |
| `Hosts.HostTable.Release` | src/ops-xp-routing.c:209-220 | the id becomes the next to be handed out, and the partition of live and retired ids holds again |
| `Hosts.HostTable.Add` | src/ops-xp-routing.c:224-346 | the host is filed under its hardware index, a relocated victim follows, and no other id changes its meaning; the id is the last retired or the next new one; failures return it to the free list |
| `Hosts.HostTable.Delete` | src/ops-xp-routing.c:349-397 | the id retires, is the next to be handed out, and its index is freed if the removal succeeds; unknown ids change nothing |
| `Hosts.MoveLocated` | src/ops-xp-routing.c:326-340 | refiling the victim keeps software and hardware indexes equal and frees the new host's index |
| `SecondaryAddrs.Port.Configure` | src/ops-xp-ofproto-provider.c:1569-1619 | for every earlier state exactly the requested addresses remain, kept ones keep their ids, exactly the host ids held by dropped addresses are deleted, new addresses own new hosts unless their add failed; the hosts that others asked for are untouched if and only if no dropped address holds the id of one |
| `SecondaryAddrs.Port.DropObsolete` | src/ops-xp-ofproto-provider.c:1590-1599 | the hosts that go are exactly those whose ids the obsolete addresses hold |
| `SecondaryAddrs.OthersKeptIff` | src/ops-xp-ofproto-provider.c:1590-1618 | dropping addresses and adding others leaves the hosts that others asked for alone if and only if no dropped address holds the id of one, even where a deleted id is handed out again |
| `SecondaryAddrs.StaleDrop` | src/ops-xp-ofproto-provider.c:1569-1619 | from new tables: somebody gets host 0, another port configures an unreadable address and drops it again, and host 0 is gone without its owner having asked |
| `SecondaryAddrs.Port.AddNew` | src/ops-xp-ofproto-provider.c:1600-1618 | only new addresses get new hosts; an address whose add failed is left with id 0 |
| `SecondaryAddrs.OwnersDiffer` | src/ops-xp-ofproto-provider.c:1569-1619 | two addresses of a port that own their hosts never share a host id |
| `MacTable.RunAgrees` | src/ops-xp-mac-learning.c:329-641 | over every run of learn, move, forget and refused events the two tables hold the same pairs at the same indexes, each once; the pairs and their interfaces are the replay of the events; and hardware differs only about pairs whose last move failed twice |
| `MacTable.StepKeeps` | src/ops-xp-mac-learning.c:329-641 | each event, described by its effect on both tables, keeps agreement and uniqueness and does to the pairs what it says, wherever entries are relocated |
| `MacTable.PlacedKeeps` | src/ops-xp-mac-learning.c:360-404 | an insert that relocates a victim keeps agreement and uniqueness |
| `MacTable.MovedKeeps` | src/ops-xp-mac-learning.c:612-618 | a move settles the moved pair if hardware was written, and otherwise disputes at most that pair |
| `MacTable.DroppedKeeps` | src/ops-xp-mac-learning.c:453-503 | forgetting pairs in both tables keeps agreement and uniqueness and settles them |
| `MacTable.Undisputed` | src/ops-xp-mac-learning.c:329-641 | without disputed pairs the two tables are equal |
| `MacTable.MacLearning.Insert` | src/ops-xp-mac-learning.c:329-416 | the entry and a relocated victim are filed where hardware put them, and a report with its VLAN, interface and MAC in wire order is logged; a full table or SDK error changes nothing; the tables agree in any case, and pairs stay unique if and only if the pair is new; the recovery branch is dead |
| `MacTable.PlacedTwice` | src/ops-xp-mac-learning.c:360-404 | inserting a pair that is there already makes it appear twice |
| `MacTable.MacLearning.Expire` | src/ops-xp-mac-learning.c:453-484 | the entry leaves both tables and the removal is logged, or nothing changes |
| `MacTable.MacLearning.MoveAt` | src/ops-xp-mac-learning.c:612-630 | the entry is moved, or forgotten in both tables when the write failed, or moved in software only when the removal failed, too |
| `MacTable.MacLearning.Move` | src/ops-xp-mac-learning.c:570-632 | only the named pair is affected, and it ends on the new interface |
| `MacTable.MacLearning.Learn` | src/ops-xp-mac-learning.c:508-641 | which event each packet is, and when: addresses with the group bit set and non-learning VLANs are refused, a MAC known in that VLAN is not learned twice, a move of an unknown one is an error |
| `MacTable.MulticastReversed` | src/ops-xp-mac-learning.c:72-81 | the multicast test of an address in one byte order is that of the reversed address in the other |
| `MacTable.MacLearning.AgeByIndex` | src/ops-xp-mac-learning.c:644-659 | the entry at the index ages out; an unknown index is no error |
| `MacTable.MacLearning.AgeByKey` | src/ops-xp-mac-learning.c:663-685 | exactly the named MAC in the named VLAN ages out |
| `MacTable.MacLearning.FlushWhere` | src/ops-xp-mac-learning.c:491-503 | deleting while iterating keeps exactly the entries outside the predicate and those whose hardware removal failed, while the log may swap buffers at every step |
| `MacTable.MacLearning.Flush` | src/ops-xp-mac-learning.c:491-503 | static entries survive a dynamic-only flush, and nothing else does |
| `MacTable.MacLearning.FlushIntf` | src/ops-xp-mac-learning.c:690-707 | exactly the entries of the interface go, but static ones if only dynamic are asked for |
| `MacTable.MacLearning.FlushVlan` | src/ops-xp-mac-learning.c:722-736 | exactly the entries of the VLAN go |
| `MacTable.MacLearning.FlushVlanIntf` | src/ops-xp-mac-learning.c:741-758 | exactly the entries of the VLAN on the interface go |
| `MacTable.MacLearning.FlushVni` | src/ops-xp-mac-learning.c:1031-1052 | exactly the entries of that VLAN, interface and VNI go |
| `EventLog.Log.ActionAdd` | src/ops-xp-mac-learning.c:1162-1221 | with a reader present no event is ever dropped: the report is filed, a displaced pending report is refiled, and a full buffer is handed over at once |
| `EventLog.Log.Process` | src/ops-xp-mac-learning.c:1238-1251 | the handed-over batch is the active one as it was, and the new active buffer is empty |
| `EventLog.Log.Get` | src/ops-xp-mac-learning.c:1266-1288 | the reader gets the batch frozen at the last swap, or nothing |
| `EventLog.Log.Find` | src/ops-xp-mac-learning.c:1180-1183 | a pending report filed under the index, or none exists |
| `Ageing.CalcAgingParams` | src/ops-xp-mac-learning.c:91-110 | even exponent from 6 to 18, quotient times power of two is exactly the tick count, and the quotient fits 32 bits if and only if the idle time is a multiple of 8, or even and at most 2000, or at most 499 |
| `Ageing.StripTwos` | src/ops-xp-mac-learning.c:97-98 | the loop ends at the full power of two of the tick count before `i * 2` leaves 32 bits |
| `Ageing.StopsAt` | src/ops-xp-mac-learning.c:97-98 | the power of two lies between 7 and 18, is 7 exactly for odd idle times and at least 10 exactly for multiples of 8 |
| `Ageing.QuotientFits` | src/ops-xp-mac-learning.c:100-106 | which idle times give a quotient of at most 32 bits, both directions |
| `Ageing.Normalize` | src/ops-xp-mac-learning.c:83-89 | the permitted idle time nearest to the one asked for: 15 below, 3600 above |
| `Bitmap.Xor` | src/ops-xp-util.c:44-67 | the word-by-word result is the symmetric difference, NULL standing for the empty set, and is NULL only for two NULLs |
| `Bitmap.EqualIff` | src/ops-xp-vlan-bitmap.c:74-78 | word-by-word comparison decides whether two bitmaps stand for the same set, NULL comparing equal to NULL alone |
| `Bitmap.Set1Bits` | src/ops-xp-vlan-bitmap.c:50-68 | setting a bit in its word adds exactly that VLAN |
| `Bitmap.Set0Bits` | src/ops-xp-ofproto-provider.c:1240-1267 | clearing a bit in its word removes exactly that VLAN |
| `Vlan.DiffIsEnough` | src/ops-xp-ofproto-provider.c:1236-1351 | dropping what may be retagged and then writing only the XOR difference gives the wanted membership and tagging for every VLAN |
| `Vlan.UpdateAgrees` | src/ops-xp-ofproto-provider.c:1236-1351 | lifts this to the whole table: where membership agreed with the old configuration it agrees with the new |
| `Vlan.MembersAre` | src/ops-xp-ofproto-provider.c:1316-1348 | in every state of a run, on every existing VLAN but the default one, a bundle is a member exactly if the VLAN is in its trunks, and untagged exactly if it is the native VLAN and the mode is not native-tagged |
| `Vlan.OrderLeavesNoTrace` | src/ops-xp-ofproto-provider.c:2090-2153 | two states with the same configured bundles and existing VLANs have the same members and tags, so the order of VLAN creation, deletion and trunk configuration does not matter |
| `Vlan.NativeOf` | src/ops-xp-ofproto-provider.c:1188-1191 | a valid access or native VLAN is the one selected; VLAN 1 in trunk mode and for invalid ids |
| `Vlan.WantedTrunks` | src/ops-xp-ofproto-provider.c:1202-1234 | the bitmap of VLANs that each mode asks for |
| `Vlan.Bridge.constructor` | src/ops-xp-vlan.c:44-67 | without VLANs and bundles the invariant of whole runs holds |
| `Vlan.Bridge.VlanCreate` | src/ops-xp-vlan.c:102-152 | an invalid id or an existing VLAN is refused; a new VLAN has no members |
| `Vlan.Bridge.VlanRemove` | src/ops-xp-vlan.c:156-217 | the VLAN does not exist afterwards and nobody is a member of it; every other VLAN is as before |
| `Vlan.Bridge.MemberAdd` | src/ops-xp-vlan.c:265-316 | the interface is a member afterwards, with the given tagging if it was none before and its old one otherwise; no other interface and no other VLAN is touched; unknown VLANs are refused |
| `Vlan.Bridge.MemberRemove` | src/ops-xp-vlan.c:322-379 | the interface is no member afterwards; unknown VLANs are refused |
| `Vlan.Bridge.ClearAll` | src/ops-xp-vlan.c:465-486 | the interface is in no VLAN, other interfaces are where they were |
| `Vlan.Bridge.DropRetagged` | src/ops-xp-ofproto-provider.c:1240-1267 | exactly the VLANs whose tag may change are left and taken out of the remembered trunks |
| `Vlan.Bridge.WriteDiff` | src/ops-xp-ofproto-provider.c:1313-1351 | for every existing VLAN what the walk over the difference makes of the membership |
| `Vlan.Bridge.UpdateVlanConfig` | src/ops-xp-ofproto-provider.c:1159-1359 | from agreement with the old configuration, on every existing VLAN the interface is a member exactly if the VLAN is wanted, and untagged exactly if it is the native VLAN and the mode is not native-tagged; only this interface is touched |
| `Vlan.Bridge.AddVlan` | src/ops-xp-ofproto-provider.c:2090-2153 | a new VLAN has exactly the members whose trunks ask for it, untagged exactly where it is the native VLAN and the mode is not native-tagged; adding VLAN 1 gives the missing members their place and fails exactly if it does not exist and some bundle trunks it |
| `Vlan.Bridge.DeleteVlan` | src/ops-xp-ofproto-provider.c:2090-2153 | the members leave, so the VLAN does go; VLAN 1 stays and loses exactly the bundles that trunk it; other VLANs are untouched; the error comes exactly for a VLAN that does not exist but is trunked |
| `Vlan.Bridge.Reconfigure` | src/ops-xp-ofproto-provider.c:1159-1359 | the same for a run: reconfiguration keeps every existing VLAN but the default exact for all bundles, and gives this one its membership and tags |
| `Vlan.Bridge.AddBundle` | src/ops-xp-ofproto-provider.c:1946-1974 | a new bundle, not yet configured, keeps every VLAN exact |
| `Vlan.Bridge.DestroyBundle` | src/ops-xp-ofproto-provider.c:1897-1901 | destroying a bundle keeps every VLAN exact for the others |
| `AclCompile.Populate` | src/ops-xp-classifier.c:453-644 | starting from a fully masked key and filling in the valid fields gives the key whose meaning is proved apart; the command is FWD for permit, DROP for deny without permit |
| `AclCompile.Swapped` | src/ops-xp-classifier.c:463-494 | comparing byte-swapped addresses under the swapped and inverted mask is the masked comparison of the rule |
| `AclCompile.BytesReversed` | src/ops-xp-classifier.c:438-447 | which byte goes where |
| `AclCompile.SwapTwice` | src/ops-xp-classifier.c:438-447 | reversing the byte order is its own inverse |
| `AclCompile.KeyMeans` | src/ops-xp-classifier.c:453-644 | the key hits exactly the packets that match the fields it has room for, on interfaces with that ACL id only, type of service aside |
| `AclCompile.FaithfulIff` | src/ops-xp-classifier.c:453-644 | any rule keeps its meaning for all packets if and only if it asks for no type of service, no TCP flags, class of service or MAC address (but with an empty mask), and its ports are free, equal to one port, or in a range of one port |
| `AclCompile.TosUnfaithful` | src/ops-xp-classifier.c:560-572 | for every type-of-service field there is a packet on which rule and key disagree |
| `AclCompile.UnseenIsMisread` | src/ops-xp-classifier.c:574-634 | for every rule with TCP flags, class of service or MAC address there is a packet that the key hits and the rule does not match |
| `AclCompile.FirstIsMisread` | src/ops-xp-classifier.c:1029-1054 | for the operators that do not accept the rule's own first port the key would hit a packet the rule does not match |
| `AclCompile.RangeIsMisread` | src/ops-xp-classifier.c:1029-1054 | for a range of several ports the key would miss a packet the rule matches |
| `AclCompile.SupportedPorts` | src/ops-xp-classifier.c:1029-1054 | what validation lets through has ports the key can express |
| `AclCompile.ListMeans` | src/ops-xp-classifier.c:650-770 | for lists without fields that are accepted and misread the winning TCAM entry is that of the first matching rule: it forwards if the rule permits and drops if it denies; none hits if no rule matches, whatever other ACLs are in the table |
| `AclCompile.SlotMeans` | src/ops-xp-classifier.c:682-719 | a slot hits exactly when it holds a matching rule of the list |
| `AclLifecycle.PacketVerdict` | src/ops-xp-classifier.c:1057-1160 | in every consistent state each port and router interface with a list applied has its ACL on and, if the list has no type of service, TCP flags, class of service or MAC address, forwards what the first matching rule permits and drops what it denies; without a list the ACL is off with id 0 |
| `AclLifecycle.OwnSlots` | src/ops-xp-classifier.c:715-719 | everything else in a table carries another ACL's id |
| `AclLifecycle.InUse` | src/ops-xp-classifier.c:1057-1237 | entries exist exactly for the lists that are applied somewhere |
| `AclLifecycle.AllReleased` | src/ops-xp-classifier.c:953-1026 | once nothing is applied no id, no entry and no TCAM slot is left |
| `AclLifecycle.Overcounted` | src/ops-xp-classifier.c:1317-1336 | one user too many contradicts the invariant |
| `AclLifecycle.AppliedTwice` | src/ops-xp-classifier.c:1057-1160 | a list applied where there is one already is counted twice or leaves the old count behind |
| `AclLifecycle.Undercounted` | src/ops-xp-classifier.c:1188-1234 | a list taken off a place where it was not is missing where it still is |
| `AclLifecycle.ReplacedWrong` | src/ops-xp-classifier.c:1263-1315 | replacing a list that is not the one at the place makes a count wrong |
| `AclLifecycle.WrongShown` | src/ops-xp-classifier.c:1317-1336 | an interface that shows another list than the one applied contradicts the invariant |
| `AclLifecycle.ForeignStatus` | src/ops-xp-classifier.c:1240-1340 | an apply and a replace, with a foreign error status passed in, that ends with a wrong count |
| `AclLifecycle.Validate` | src/ops-xp-classifier.c:1029-1054 | unsupported exactly if some rule uses a refused operator, and the last such rule is reported |
| `AclLifecycle.Classifier.CreateRules` | src/ops-xp-classifier.c:650-770 | each rule is compiled into a fresh slot, with strictly decreasing priorities, and no other slot changes |
| `AclLifecycle.Classifier.DestroyRules` | src/ops-xp-classifier.c:777-833 | exactly the entry's slots are emptied |
| `AclLifecycle.Classifier.KnownId` | src/ops-xp-classifier.c:870-911 | finds the list's id if any of the three tables holds it |
| `AclLifecycle.Classifier.AclAdd` | src/ops-xp-classifier.c:840-950 | one id per list across tables, distinct lists distinct ids, allocated exactly while used; the list is programmed |
| `AclLifecycle.Classifier.AclDelete` | src/ops-xp-classifier.c:953-1026 | the entry and its slots go, and the id is freed exactly if no other table holds it |
| `AclLifecycle.Classifier.Apply` | src/ops-xp-classifier.c:1057-1160 | counts, enable bits and ids follow the new attachment if and only if the place had no list; ids and TCAM are right in any case; a refused request changes nothing; a list already in the table keeps its compiled rules |
| `AclLifecycle.Classifier.Remove` | src/ops-xp-classifier.c:1163-1237 | exactly this attachment goes and the last one deletes the entry; the invariant survives if and only if the named list was the one applied there |
| `AclLifecycle.Classifier.Replace` | src/ops-xp-classifier.c:1240-1340 | for each final status whether the invariant survives, as an equivalence; an accepted replacement swaps the attachment, and a rejected one that names the applied list restores the exact previous state |
| `AclLifecycle.Restored` | src/ops-xp-classifier.c:1314-1336 | switching an interface off and on again with the ACL it had restores every setting |
| `Lag.LagTable.AttachPorts` | src/ops-xp-lag.c:113-152 | the LAG has exactly the requested known ports, taken from other LAGs; every port is in at most one LAG and has its control interface set exactly while in one |
| `Lag.LagTable.Attach` | src/ops-xp-lag.c:188-260 | the port moves over from the LAG it was in; a port without a device is refused |
| `Lag.LagTable.Detach` | src/ops-xp-lag.c:263-320 | the port leaves the LAG and its control interface is reset |
| `Lag.DetachKeeps` | src/ops-xp-lag.c:263-320 | removing a member keeps exclusivity and the control settings |
| `Lag.AttachKeeps` | src/ops-xp-lag.c:188-260 | adding a port that is in no LAG keeps exclusivity and the control settings |
| `Bundles.Ofproto.constructor` | src/ops-xp-ofproto-provider.c:260-344 | ports without bundles satisfy the invariant |
| `Bundles.Ofproto.BundleSet` | src/ops-xp-ofproto-provider.c:1922-2054 | the bundle ends with exactly the known slaves; others lose exactly those, and vanish only if they lost all; back pointers and lists agree; the assertion of line 2004 cannot fire; destroyed and refused exactly for a single known port of a foreign class that has the bundle's name, outside VRF and LAG; an error of the LAG configuration is passed on with the ports in place |
| `Bundles.Ofproto.AddPort` | src/ops-xp-ofproto-provider.c:1108-1156 | the port moves, and the bundle it leaves is destroyed if it was the last one |
| `Bundles.Ofproto.DelPort` | src/ops-xp-ofproto-provider.c:1057-1106 | the port leaves its bundle's list and points nowhere |
| `Bundles.Ofproto.Destroy` | src/ops-xp-ofproto-provider.c:1872-1919 | all ports leave while the list is walked, then the bundle goes |
| `Bundles.Ofproto.BundleRemove` | src/ops-xp-ofproto-provider.c:2056-2087 | the port leaves, and takes the bundle along exactly if it was the last |
| `Bundles.JoinKeeps` | src/ops-xp-ofproto-provider.c:1119-1128 | appending a port that left its old bundle keeps the partition |
| `Bundles.SetOutcome` | src/ops-xp-ofproto-provider.c:1986-2002 | dropping the extra ports and adding the slaves leaves exactly the known slaves |

## Left out

- Packet I/O, TAP and netdev host interfaces, threads, shell commands, SerDes, unixctl commands and registration: plumbing.
- QoS, CoPP, STG, mirrors and the OpenFlow datapath: thin wrappers or stubs.
- Locks and deadlock freedom: each handler is one atomic step.
- Heap layout: entries that the code links into hash maps are values in maps keyed by what identifies them; the search order of a map and the contents of reused memory are arbitrary.
- Next-hop data other than the id (MAC, resolution state, egress interface): reuse compares ids only, and so does the model; `nh_update` is the check that a resolved next hop names a live host.
- Parsing of prefixes and addresses: its outcome is a flag or a predicate.
- OFPROTO_MAX_NH_PER_ROUTE, the event buffer size and the maximum of MAC entries are parameters; 32-bit wrap-around of slot numbers, host ids and counters is not modelled except in `Ageing`.
- RouteSpec.RunRefines: leaves aside a run in which the update of a reused group failed, after which the invariant is gone.
- L3Routes.L3Manager.RouteDelete: a hardware route whose removal failed is only logged, and may stay in hardware.
- Hosts.HostTable.Add: one index space for IPv4 and IPv6 hosts.
- SecondaryAddrs.Port.Configure: IPv4 only; the IPv6 teardown uses the id of the primary address. Who asked for a host is recorded by the model, not by the code.
- MacTable.MacLearning.Insert: the recovery branches for an unknown victim are shown unreachable instead of being modelled.
- MacTable.MacLearning.Learn: the result of the VLAN lookup (existing and not flooding) is a flag; the interface's tunnel data is not modelled.
- EventLog.Log.ActionAdd: a pending removal at an index is overwritten by a later learn at that index, as in the code, so a batch does not replay to the table. Port names and the unit number are not modelled.
- Vlan.Bridge.UpdateVlanConfig: SDK calls succeed; port VLAN id and accepted frame type are not modelled, nor is the change of tagging of an existing member by `ops_xp_vlan_member_set_tagging`.
- Vlan.Bridge.AddVlan: whole-run claims exclude the default VLAN 1, which survives deletion and is also joined by ports outside bundles. One bridge, one interface id per bundle.
- AclLifecycle.Classifier.Apply: SDK calls succeed, in particular an unused ACL id exists when one is needed (otherwise the code uses an uninitialised id); ingress on ports and VLANs only, since egress entries are never inserted in a table; bundles do not change while lists are applied; `num_intfs` is not bounded to 16 bits.
- AclLifecycle.PacketVerdict: a larger TCAM priority wins; lists with type of service, TCP flags, class of service or MAC addresses are compiled to something else than they say. Rules are IPv4. The key's fields that the code never compares are not part of the key. The bridge table has no interface setting in the code.
- `ops_xp_cls_list_update`: it tests the result of a function that returns no value; ACL statistics are counters only.
- Lag.LagTable.AttachPorts: SDK calls succeed; balance mode and LAG creation are single calls.
- Bundles.Ofproto.BundleSet: SDK calls other than those for the LAG succeed; VLAN and L3 configuration of the bundle are modelled apart from its ports.
- Bundles.Ofproto.BundleRemove: the frame type can be set; the code returns early if it cannot.

# Cluster membership and query routing of r-nacos, in Dafny

This project models the naming cluster's membership manager in r-nacos and
the two small pure helpers of the service-query request handler.

The membership manager (`InnerNodeManage`) is an actor. It owns a
`BTreeMap` from node id to `ClusterInnerNode`. It applies full membership
snapshots (`update_nodes`), numbers the nodes by ascending id
(`update_nodes_index`), answers for the local node and for the whole node
list, and forwards a sync request to the sync actor of every valid peer.
`NodeManage` is the caller's side: it asks for the node list, drops the
local node, and routes a key to a node by `hash % len`. The query handler
parses the comma-separated cluster filter and defaults the namespace to
`"public"`.

The model keeps the source's form:

- `NodeManage.InnerNodeManage` is a class. Its map is a field that the
  methods update in place, with the same loops as the source. Each
  state-changing method is proved against a value-level function, so
  `UpdateNodes` ends in the state `Membership.Reconcile` names and
  `UpdateNodesIndex` ends in `Membership.Reindex` of the old map.
- The properties are lemmas about those functions and about the
  invariant `Membership.WellFormed`, which every method keeps. The
  invariant says:
  - every record is keyed by its own id;
  - a record is local exactly when its id is this node's;
  - exactly the non-local records hold a sync actor, each bound to its
    own id, and no two hold the same actor;
  - each index is the record's ascending-id rank;
  - a non-empty table holds the local record.
- Starting a `ClusteSyncSender` is modelled as handing out a fresh handle
  from a counter (`started`). "Started by this call" and "distinct actors"
  can therefore be stated and proved.

Files:

| file | module | what |
|---|---|---|
| wrappers.dfy | `Wrappers` | `Option`, `Result` |
| node_model.dfy | `NodeModel` | `u64`, `NodeStatus`, `ClusterInnerNode`, `ClusterNode`, the ascending key order of the `BTreeMap` and ranks in it |
| membership.dfy | `Membership` | `update_nodes` as values (`Reconcile`), the table invariant, and its lemmas |
| listing.dfy | `Listing` | `get_all_nodes` and the broadcast's recipients as values |
| node_manage.dfy | `NodeManage` | the `InnerNodeManage` class, its methods and `handle` |
| routing.dfy | `Routing` | `NodeManage::{get_all_valid_nodes, get_other_valid_nodes, route_addr}`, plus a worked three-node scenario |
| service_query.dfy | `ServiceQuery` | `parse_clusters` and the namespace default |

## Model

| member | source | states |
|---|---|---|
| NodeModel.SortedKeysSpec | src/naming/cluster/node_manage.rs:59 | The `BTreeMap` order lists every key exactly once, in strictly ascending order. |
| NodeModel.RankBound | src/naming/cluster/node_manage.rs:113-119 | The index given to a key is below the table size and at most the key, so the `u64` counter of `update_nodes_index` cannot overflow. |
| NodeModel.RankMonotone | src/naming/cluster/node_manage.rs:113-119 | A smaller id gets a smaller index, and the converse holds too. |
| Membership.IdsMembership | src/naming/cluster/node_manage.rs:73 | An id is in `new_sets` exactly when some pair of the snapshot carries it. |
| Membership.LastAddrIsLast | src/naming/cluster/node_manage.rs:83-86 | With a duplicated id, the surviving address is the address of the last pair for that id. |
| Membership.FirstAddrIsFirst | src/naming/cluster/node_manage.rs:87-103 | With a duplicated id, a new record's sync actor is started with the address of the first pair for that id. |
| Membership.Prune | src/naming/cluster/node_manage.rs:74-82 | Removing the deleted ids keeps exactly the old keys that the snapshot lists, with their records unchanged. |
| Membership.EnsureLocal | src/naming/cluster/node_manage.rs:106-109 | The local id is added when missing, as the synthesized `Valid` local record with no sender; every other record is unchanged. |
| Membership.Reindex | src/naming/cluster/node_manage.rs:113-119 | Renumbering keeps the keys and changes only the indices, and each index becomes the record's ascending-id rank. |
| Membership.UpsertsKeys | src/naming/cluster/node_manage.rs:83-105 | The upsert loop's key set is the old keys plus the snapshot's ids. |
| Membership.UpsertsCount | src/naming/cluster/node_manage.rs:87-94 | The upsert loop starts one sync actor per id that is neither present nor local. |
| Membership.UpsertsKept | src/naming/cluster/node_manage.rs:83-86 | A present record changes only its address, which becomes the last address given for its id. |
| Membership.UpsertsCreated | src/naming/cluster/node_manage.rs:87-104 | A new record is `Valid`, has the last address, and is local iff it is this node. It has a sync actor iff it is not local; that actor is bound to its id and first address and was started during the loop. |
| Membership.UpsertsHandles | src/naming/cluster/node_manage.rs:93 | The sync actors started by the upsert loop are pairwise distinct. |
| Membership.ReconcileKeys | src/naming/cluster/node_manage.rs:72-111 | After `update_nodes` the key set is exactly the snapshot's ids plus this node's id. |
| Membership.ReconcileStarted | src/naming/cluster/node_manage.rs:83-105 | `update_nodes` starts exactly one sync actor per id that is new to the table and not this node. |
| Membership.ReconcileIndex | src/naming/cluster/node_manage.rs:110-119 | After `update_nodes` every index is the record's ascending-id rank. |
| Membership.ReconcileSurvivor | src/naming/cluster/node_manage.rs:83-86 | An id in both the old table and the snapshot keeps id, locality, status and sync actor. Its address becomes the snapshot's last one for that id; only the index may change besides. |
| Membership.ReconcileCreated | src/naming/cluster/node_manage.rs:87-104 | An id new to the table gets a `Valid` record with the last address, local iff it is this node. It has a sync actor iff it is not local, bound to its id and first address, started by this call. |
| Membership.ReconcileLocalSynthesized | src/naming/cluster/node_manage.rs:106-109 | A snapshot without this node gets the default local record (empty address, `Valid`, no sender), index aside. |
| Membership.ReconcileHandles | src/naming/cluster/node_manage.rs:93 | The sync actors created by one `update_nodes` are pairwise distinct. |
| Membership.DenseRanks | src/naming/cluster/node_manage.rs:113-119 | Indices that are ranks are exactly `0 .. n-1` and follow ascending id order in both directions. |
| Membership.ReconcileDenseIndex | src/naming/cluster/node_manage.rs:110-119 | After `update_nodes` the indices are dense `0 .. n-1`, each used once, and ordered as the ids are. |
| Membership.ReconcileWellFormed | src/naming/cluster/node_manage.rs:72-111 | `update_nodes` keeps the table invariant: ids as keys, local iff this node, senders exactly on peers, bound to their own id and distinct, indices as ranks, and the local record present. |
| Membership.ExactlyOneLocal | src/naming/cluster/node_manage.rs:88-109 | In a well-formed, non-empty table the set of local records is exactly `{this_id}`, and that record has no sync actor. |
| Membership.ReconcileIdempotent | src/naming/cluster/node_manage.rs:72-111 | Applying the same snapshot twice gives the same table and counter as applying it once, so no second actor is started. |
| Listing.ValuesSpec | src/naming/cluster/node_manage.rs:139 | `values()` lists the record under the `i`-th smallest key at position `i`, one entry per key. |
| Listing.ValuesInOrder | src/naming/cluster/node_manage.rs:139 | On a well-formed table `values()` is sorted by ascending id, entry `i` has index `i`, and every record appears at its index. |
| Listing.AllNodes | src/naming/cluster/node_manage.rs:134-141 | The listing is never empty. For an empty map it is the synthesized local node; otherwise it is every record, converted, in `values()` order. |
| Listing.AllNodesInOrder | src/naming/cluster/node_manage.rs:134-141 | Whenever the table is well-formed, the listing's entry `i` has index `i` and is local iff its id is this node's. Ids strictly ascend, and each record sits at its index. |
| Listing.AllNodesOneLocal | src/naming/cluster/node_manage.rs:134-141 | On a well-formed table exactly one listing entry is local, and it is this node. |
| Listing.BroadcastMembership | src/naming/cluster/node_manage.rs:186-194 | The broadcast reaches a sync actor exactly when a visited record that is non-local, `Valid` and holding a sender holds it. |
| Listing.BroadcastAscending | src/naming/cluster/node_manage.rs:186-194 | Visiting records by ascending id, each holding its own actor, the broadcast reaches the peers in strictly ascending id order, each once. |
| Listing.StoreAscending | src/naming/cluster/node_manage.rs:186-194 | On a well-formed table the broadcast's recipients are sorted by strictly ascending peer id. |
| Listing.BroadcastForStore | src/naming/cluster/node_manage.rs:186-194 | On a well-formed table the broadcast reaches the sync actor of exactly the non-local `Valid` records, each once, by ascending id. |
| NodeManage.InnerNodeManage.constructor | src/naming/cluster/node_manage.rs:64-70 | A new manager has an empty map, has started no actor, and satisfies the invariant. |
| NodeManage.InnerNodeManage.StartSyncSender | src/naming/cluster/node_manage.rs:93 | Starting an actor binds it to the given id and address and gives it a handle no earlier actor has. |
| NodeManage.InnerNodeManage.GetThisNode | src/naming/cluster/node_manage.rs:121-132 | Returns the stored local record, or else the default local record (id `this_id`, index 0, empty address, `Valid`, no sender). On the invariant it is local, has this id and has no sender. |
| NodeManage.InnerNodeManage.UpdateNodes | src/naming/cluster/node_manage.rs:72-111 | The new state is `Reconcile` of the old one with the snapshot, and the keys are the snapshot's ids plus this node's. The invariant is kept. |
| NodeManage.InnerNodeManage.CollectDels | src/naming/cluster/node_manage.rs:74-79 | `dels` holds exactly the present keys that the snapshot does not list. |
| NodeManage.InnerNodeManage.RemoveKeys | src/naming/cluster/node_manage.rs:80-82 | The map loses exactly the keys of `dels`; every other record is unchanged. |
| NodeManage.InnerNodeManage.UpsertAll | src/naming/cluster/node_manage.rs:83-105 | The map and actor counter end as `Upserts` of the old state with the snapshot, pair by pair in order. |
| NodeManage.InnerNodeManage.UpdateNodesIndex | src/naming/cluster/node_manage.rs:113-119 | The map ends as `Reindex` of the old map: the same records, each numbered by its ascending-id position. |
| NodeManage.InnerNodeManage.GetAllNodes | src/naming/cluster/node_manage.rs:134-141 | Never empty; the empty map gives the synthesized local node. On the invariant: entry `i` has index `i`, ids strictly ascend, an entry is local iff it is this node, and every record is listed at its index. |
| NodeManage.InnerNodeManage.SendToOtherNodes | src/naming/cluster/node_manage.rs:186-196 | The recipients are those of the loop over `values()`. They are exactly the actors held by non-local `Valid` records, each once, in ascending peer id order. |
| NodeManage.InnerNodeManage.Handle | src/naming/cluster/node_manage.rs:173-198 | Each request gets its reply. Only `UpdateNodes` changes the state (to `Reconcile`); only `SendToOtherNodes` sends. The invariant is kept. |
| Routing.GetAllValidNodes | src/naming/cluster/node_manage.rs:235-243 | An `AllNodes` reply passes its list through unfiltered. A failed delivery passes its error, and any other reply gives the fixed error message. |
| Routing.GetOtherValidNodes | src/naming/cluster/node_manage.rs:244-247 | Succeeds exactly when the node list does; errors pass through unchanged. |
| Routing.OthersMembership | src/naming/cluster/node_manage.rs:246 | A node is kept exactly when it is in the list and not local. |
| Routing.OthersOrder | src/naming/cluster/node_manage.rs:246 | The filter is one shorter per local node and keeps ascending id order. |
| Routing.OthersForStore | src/naming/cluster/node_manage.rs:244-247 | On a well-formed table the other nodes are every listed node except this node's, one fewer, still by ascending id. |
| Routing.RouteSpec | src/naming/cluster/node_manage.rs:215-233 | A non-empty list routes to slot `hash % len`: `Local` iff that node is local, otherwise `Remote` with its address. An empty or failed list routes to `Local(0)`. |
| Routing.RouteForStore | src/naming/cluster/node_manage.rs:215-233 | On an empty table (before the first snapshot) the listing is the synthesized local node, so every key routes to `Local(0)`. On a non-empty well-formed table the route's slot is the index of the record with the `hash % n`-th smallest id. It is `Local` iff that record is this node, and `Remote` carries its address. |
| Routing.ThreeNodesRecords | src/naming/cluster/node_manage.rs:83-119 | Node 2 applying ids 1, 2, 3 to an empty table gets three `Valid` records at indices 0, 1, 2; only id 2 is local. |
| Routing.ListingOfThree | src/naming/cluster/node_manage.rs:134-141 | A table with keys 1, 2, 3 lists its records in that order. |
| Routing.ThreeNodeCluster | src/naming/cluster/node_manage.rs:215-233 | Worked case for node 2 of a three-node cluster: the listing is ids 1, 2, 3 at indices 0, 1, 2. Hash 7 routes to `Local(1)` and hash 8 to `Remote(2, "c")`. |
| ServiceQuery.Split | src/grpc/handler/naming_service_query.rs:33 | `str::split` on one character always yields at least one piece. |
| ServiceQuery.SplitPieces | src/grpc/handler/naming_service_query.rs:33 | No piece of a split contains the separator. |
| ServiceQuery.JoinSplit | src/grpc/handler/naming_service_query.rs:33 | Joining the pieces with the separator gives back the input. |
| ServiceQuery.SplitJoin | src/grpc/handler/naming_service_query.rs:33 | Splitting a join of separator-free pieces gives back the pieces. |
| ServiceQuery.NonEmptyMembership | src/grpc/handler/naming_service_query.rs:34 | The length filter keeps a segment exactly when it is non-empty and present. |
| ServiceQuery.NonEmptyAll | src/grpc/handler/naming_service_query.rs:34 | The filter leaves a list of non-empty segments as it is. |
| ServiceQuery.ParseClusters | src/grpc/handler/naming_service_query.rs:30-37 | No `cluster` field gives no filter. Every name returned is non-empty and contains no comma. |
| ServiceQuery.ParseClustersJoin | src/grpc/handler/naming_service_query.rs:30-37 | The names, joined by commas, are the input with every empty segment removed; the reference is an independent character-by-character definition. |
| ServiceQuery.ParseClustersRoundTrip | src/grpc/handler/naming_service_query.rs:30-37 | Joining non-empty, comma-free names with commas and parsing the result gives back the same names in order; zero names is the field `""`, which parses to no names. |
| ServiceQuery.Namespace | src/grpc/handler/naming_service_query.rs:47 | The request's namespace when it has one, otherwise `"public"`. |

## Left out

- The actor machinery: the mailbox, `Context`, `started` and its log line. `send(..).await??` is modelled as a `Result` input to `GetAllValidNodes`, where `Err` stands for a failed delivery or a failed handler.
- `DefaultHasher`: `route_addr` takes the key's hash as an input. `usize` is taken to be 64 bits wide.
- `ClusteSyncSender` and `RaftClusterRequestSender` are not part of this model. A started actor is an opaque handle that records the id and address it was started with.
- The `SyncSenderRequest` payload and `do_send`: `SendToOtherNodes` returns the recipients instead of sending.
- Actor teardown: removing a record (`all_nodes.remove`) drops its `Addr<ClusteSyncSender>`, which stops that sync actor. The model only drops the handle; it does not model the actor stopping.
- Logging and the node health-check TODO. No code changes a node's status, so the model never produces `Ill` or `Unvalid` either.
- Serde decoding, `ServiceKey`, the `NamingActor` query and the response assembly of the query handler. Only `parse_clusters` and the namespace default are modelled.
- NodeManage.InnerNodeManage.UpdateNodes: the source writes its three loops inline. The model puts each in its own method (`CollectDels`, `RemoveKeys`, `UpsertAll`) with the same loop body.

/**
 * `InnerNodeManage`, the actor that owns the cluster membership map, with
 * its message handler. The map is updated in place, as in the source; each
 * method is proved against the value-level definitions of `Membership` and
 * `Listing`.
 */
module NodeManage {
  import opened Wrappers
  import opened NodeModel
  import opened Membership
  import Listing

  /** `NodeManageRequest`; the broadcast payload is not modelled. */
  datatype NodeManageRequest =
    | UpdateNodes(nodes: Snapshot)
    | GetThisNode
    | GetAllNodes
    | SendToOtherNodes

  /** `NodeManageResponse`; `Nothing` is the source's `None`. */
  datatype NodeManageResponse =
    | Nothing
    | ThisNode(node: ClusterNode)
    | AllNodes(nodes: seq<ClusterNode>)

  class InnerNodeManage {
    /** `this_id`: the id of the node this process runs as. */
    const thisId: u64
    /** `all_nodes`: the membership map, iterated in ascending key order. */
    var allNodes: map<u64, InnerNode>
    /** How many sync actors this manager has started; the next one gets this handle. */
    var started: nat

    ghost function State(): Store
      reads this
    {
      Store(allNodes, started)
    }

    ghost predicate Valid()
      reads this
    {
      WellFormed(thisId, State())
    }

    /** `InnerNodeManage::new`: an empty map. */
    constructor(thisId: u64)
      ensures this.thisId == thisId && allNodes == map[] && started == 0
      ensures Valid()
    {
      this.thisId := thisId;
      allNodes := map[];
      started := 0;
    }

    /** `ClusteSyncSender::new(key, addr, ..).start()`: a new actor, distinct from all started before. */
    method StartSyncSender(key: u64, addr: string) returns (s: SyncSender)
      modifies this`started
      ensures s == SyncSender(old(started), key, addr)
      ensures started == old(started) + 1
    {
      s := SyncSender(started, key, addr);
      started := started + 1;
    }

    /** `get_this_node`: the stored local record, or a synthesized local `Valid` one. */
    function GetThisNode(): (n: InnerNode)
      reads this
      ensures thisId in allNodes ==> n == allNodes[thisId]
      ensures thisId !in allNodes ==> n == InnerNode(thisId, 0, true, "", NodeStatus.Valid, None)
      ensures Valid() ==> n.id == thisId && n.isLocal && n.syncSender == None
    {
      ThisRecord(thisId, allNodes)
    }

    /** `update_nodes`: reconcile the map against a full snapshot of the cluster. */
    method UpdateNodes(nodes: Snapshot)
      requires Valid()
      modifies this
      ensures State() == Reconcile(thisId, old(State()), nodes)
      ensures allNodes.Keys == Ids(nodes) + {thisId}
      ensures Valid()
    {
      ghost var st0 := State();
      var newSets := Ids(nodes);
      var dels := CollectDels(newSets);
      RemoveKeys(dels);
      assert allNodes == Prune(st0.nodes, newSets);
      UpsertAll(nodes);
      if thisId !in allNodes {
        var node := GetThisNode();
        allNodes := allNodes[thisId := node];
      }
      assert State() == Unindexed(thisId, st0, nodes);
      UpdateNodesIndex();
      ReconcileUnindexed(thisId, st0, nodes);
      ReconcileKeys(thisId, st0, nodes);
      ReconcileWellFormed(thisId, st0, nodes);
    }

    /** The first loop of `update_nodes`: the keys, in key order, that the snapshot no longer lists. */
    method CollectDels(newSets: set<u64>) returns (dels: seq<u64>)
      ensures forall k :: k in dels <==> k in allNodes && k !in newSets
    {
      SortedKeysSpec(allNodes.Keys);
      var keys := SortedKeys(allNodes.Keys);
      dels := [];
      for i := 0 to |keys|
        invariant forall k :: k in dels <==> k in keys[..i] && k !in newSets
      {
        if keys[i] !in newSets {
          dels := dels + [keys[i]];
        }
      }
      assert keys[..|keys|] == keys;
    }

    /** The second loop of `update_nodes`: remove every key of `dels`. */
    method RemoveKeys(dels: seq<u64>)
      modifies this`allNodes
      ensures allNodes == map k | k in old(allNodes) && k !in dels :: old(allNodes)[k]
    {
      ghost var m0 := allNodes;
      for j := 0 to |dels|
        invariant allNodes == map k | k in m0 && k !in dels[..j] :: m0[k]
      {
        assert dels[..j + 1] == dels[..j] + [dels[j]];
        allNodes := allNodes - {dels[j]};
      }
      assert dels[..|dels|] == dels;
    }

    /** The third loop of `update_nodes`: update a survivor's address or create the record. */
    method UpsertAll(nodes: Snapshot)
      modifies this`allNodes, this`started
      ensures State() == Upserts(thisId, old(State()), nodes)
    {
      ghost var st0 := State();
      for i := 0 to |nodes|
        invariant State() == Upserts(thisId, st0, nodes[..i])
      {
        assert nodes[..i + 1][..i] == nodes[..i];
        var key, addr := nodes[i].0, nodes[i].1;
        if key in allNodes {
          allNodes := allNodes[key := allNodes[key].(addr := addr)];
        } else {
          var isLocal := thisId == key;
          var syncSender: Option<SyncSender>;
          if isLocal {
            syncSender := None;
          } else {
            var s := StartSyncSender(key, addr);
            syncSender := Some(s);
          }
          allNodes := allNodes[key := InnerNode(key, 0, isLocal, addr, NodeStatus.Valid, syncSender)];
        }
      }
      assert nodes[..|nodes|] == nodes;
    }

    /** `update_nodes_index`: number the records 0, 1, ... in ascending key order. */
    method UpdateNodesIndex()
      modifies this`allNodes
      ensures allNodes == Reindex(old(allNodes))
    {
      ghost var m0 := allNodes;
      var keys := SortedKeys(allNodes.Keys);
      for i := 0 to |keys|
        invariant allNodes.Keys == m0.Keys
        invariant forall k :: k in allNodes ==> allNodes[k] == m0[k].(index := allNodes[k].index)
        invariant forall k :: k in allNodes && Rank(m0.Keys, k) < i ==> allNodes[k].index == Rank(m0.Keys, k)
      {
        var k := keys[i];
        SortedRank(m0.Keys, i);
        assert forall k' :: k' in m0 && Rank(m0.Keys, k') == i ==> k' == k;
        allNodes := allNodes[k := allNodes[k].(index := i)];
      }
      ReindexAll(m0, allNodes);
    }

    /** `get_all_nodes`: never empty; on the invariant, the records by ascending id, each at its index. */
    function GetAllNodes(): (r: seq<ClusterNode>)
      reads this
      ensures |r| >= 1
      ensures allNodes == map[] ==> r == [ClusterNode(thisId, 0, true, "", NodeStatus.Valid)]
      ensures Valid() ==> forall i :: 0 <= i < |r| ==> r[i].index == i && (r[i].isLocal <==> r[i].id == thisId)
      ensures Valid() ==> forall i, j :: 0 <= i < j < |r| ==> r[i].id < r[j].id
      ensures Valid() ==> forall k :: k in allNodes ==> allNodes[k].index < |r| && r[allNodes[k].index] == ToClusterNode(allNodes[k])
    {
      Listing.AllNodesInOrder(thisId, State());
      Listing.AllNodes(thisId, allNodes)
    }

    /**
     * The `SendToOtherNodes` arm of `handle`: visit the records in key
     * order, skip local and non-`Valid` ones, and send to each sync actor
     * found. The result is the list of actors sent to.
     */
    method SendToOtherNodes() returns (sent: seq<SyncSender>)
      requires Valid()
      ensures sent == Listing.BroadcastTargets(Listing.Values(allNodes))
      ensures forall s :: s in sent <==>
        exists k :: k in allNodes && k != thisId && allNodes[k].status == NodeStatus.Valid && allNodes[k].syncSender == Some(s)
      ensures Listing.AscendingIds(sent)
    {
      var vs := Listing.Values(allNodes);
      sent := [];
      for i := 0 to |vs|
        invariant sent == Listing.BroadcastTargets(vs[..i])
      {
        assert vs[..i + 1][..i] == vs[..i];
        var node := vs[i];
        if node.isLocal || node.status != NodeStatus.Valid {
          continue;
        }
        if node.syncSender.Some? {
          sent := sent + [node.syncSender.value];
        }
      }
      assert vs[..|vs|] == vs;
      forall s: SyncSender
        ensures s in sent <==>
          exists k :: k in allNodes && k != thisId && allNodes[k].status == NodeStatus.Valid && allNodes[k].syncSender == Some(s)
      {
        Listing.BroadcastForStore(thisId, State(), s);
      }
      Listing.StoreAscending(thisId, State());
    }

    /** `handle`: dispatch one request; the second result lists the sync actors a broadcast reached. */
    method Handle(msg: NodeManageRequest) returns (resp: Result<NodeManageResponse>, sent: seq<SyncSender>)
      requires Valid()
      modifies this
      ensures Valid()
      ensures msg.UpdateNodes? ==> State() == Reconcile(thisId, old(State()), msg.nodes) && resp == Ok(Nothing) && sent == []
      ensures !msg.UpdateNodes? ==> State() == old(State())
      ensures msg.GetThisNode? ==> resp == Ok(ThisNode(ToClusterNode(ThisRecord(thisId, allNodes)))) && sent == []
      ensures msg.GetAllNodes? ==> resp == Ok(AllNodes(Listing.AllNodes(thisId, allNodes))) && sent == []
      ensures msg.SendToOtherNodes? ==>
        resp == Ok(Nothing) && sent == Listing.BroadcastTargets(Listing.Values(allNodes))
    {
      sent := [];
      if msg.UpdateNodes? {
        UpdateNodes(msg.nodes);
        resp := Ok(Nothing);
      } else if msg.GetThisNode? {
        resp := Ok(ThisNode(ToClusterNode(GetThisNode())));
      } else if msg.GetAllNodes? {
        resp := Ok(AllNodes(GetAllNodes()));
      } else {
        sent := SendToOtherNodes();
        resp := Ok(Nothing);
      }
    }
  }
}

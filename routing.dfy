/**
 * `NodeManage`, the caller-side view of the membership actor: the node
 * list it asks for, the list without the local node, and hash-modulo
 * routing of a key to a node.
 */
module Routing {
  import opened Wrappers
  import opened NodeModel
  import opened Membership
  import Listing
  import NodeManage

  /** `NamingRouteAddr`: a node slot, with the address when it is a peer. */
  datatype NamingRouteAddr = Local(index: u64) | Remote(index: u64, addr: string)

  const ResponseError: string := "get_all_valid_nodes error NodeManageResponse!"

  /**
   * `get_all_valid_nodes`, given the actor's reply to `GetAllNodes` (a
   * failed delivery is an `Err`). The list is passed on unfiltered.
   */
  function GetAllValidNodes(reply: Result<NodeManage.NodeManageResponse>): (r: Result<seq<ClusterNode>>)
    ensures reply.Ok? && reply.value.AllNodes? <==> r.Ok?
    ensures r.Ok? ==> r.value == reply.value.nodes
    ensures reply.Err? ==> r == Err(reply.error)
    ensures reply.Ok? && !reply.value.AllNodes? ==> r == Err(ResponseError)
  {
    match reply
    case Err(e) => Err(e)
    case Ok(resp) =>
      if resp.AllNodes? then Ok(resp.nodes) else Err(ResponseError)
  }

  /** The nodes of `all` that are not local, in their order. */
  function Others(all: seq<ClusterNode>): seq<ClusterNode>
    decreases |all|
  {
    if all == [] then []
    else Others(all[..|all| - 1]) + (if all[|all| - 1].isLocal then [] else [all[|all| - 1]])
  }

  /** `get_other_valid_nodes`: the valid-node list minus local nodes; errors pass through. */
  function GetOtherValidNodes(all: Result<seq<ClusterNode>>): (r: Result<seq<ClusterNode>>)
    ensures r.Ok? <==> all.Ok?
    ensures all.Err? ==> r == all
  {
    match all
    case Err(e) => Err(e)
    case Ok(nodes) => Ok(Others(nodes))
  }

  /** A node is kept exactly when it is in the input and not local. */
  lemma {:induction false} OthersMembership(all: seq<ClusterNode>, n: ClusterNode)
    ensures n in Others(all) <==> n in all && !n.isLocal
    decreases |all|
  {
    if all != [] {
      var init := all[..|all| - 1];
      OthersMembership(init, n);
      assert all == init + [all[|all| - 1]];
    }
  }

  /**
   * The kept nodes are taken from the input in its order: `Others(all)` is
   * `all` with the local nodes cut out, and it is one shorter per local node.
   */
  lemma {:induction false} OthersOrder(all: seq<ClusterNode>)
    ensures |Others(all)| == |all| - LocalCount(all)
    ensures AscendingNodeIds(all) ==> AscendingNodeIds(Others(all))
    decreases |all|
  {
    if all != [] {
      var init := all[..|all| - 1];
      var last := all[|all| - 1];
      OthersOrder(init);
      if AscendingNodeIds(all) {
        assert AscendingNodeIds(init) by {
          forall i, j | 0 <= i < j < |init| ensures init[i].id < init[j].id {
            assert init[i] == all[i] && init[j] == all[j];
          }
        }
        if !last.isLocal {
          var o := Others(init);
          forall x | x in o ensures x.id < last.id {
            OthersMembership(init, x);
            var i :| 0 <= i < |init| && init[i] == x;
            assert all[i] == x;
          }
          var r := Others(all);
          assert r == o + [last];
          forall i, j | 0 <= i < j < |r| ensures r[i].id < r[j].id {
            if j == |r| - 1 {
              assert r[i] == o[i] && r[i] in o;
            } else {
              assert r[i] == o[i] && r[j] == o[j];
            }
          }
        }
      }
    }
  }

  /** How many nodes of `all` are local. */
  function LocalCount(all: seq<ClusterNode>): nat
    decreases |all|
  {
    if all == [] then 0
    else LocalCount(all[..|all| - 1]) + (if all[|all| - 1].isLocal then 1 else 0)
  }

  ghost predicate AscendingNodeIds(q: seq<ClusterNode>) {
    forall i, j :: 0 <= i < j < |q| ==> q[i].id < q[j].id
  }

  /**
   * `route_addr`, given the key's hash (`DefaultHasher` is not modelled)
   * and the outcome of `get_all_valid_nodes`; a failure counts as an
   * empty list.
   */
  function RouteAddr(hash: u64, nodes: Result<seq<ClusterNode>>): NamingRouteAddr {
    var list := if nodes.Ok? then nodes.value else [];
    if list == [] then Local(0)
    else
      var index := hash % |list|;
      var node := list[index];
      if node.isLocal then Local(index) else Remote(index, node.addr)
  }

  /**
   * Routing picks slot `hash % len` of a non-empty list, `Local` exactly
   * when that node is local and otherwise `Remote` with its address; an
   * empty or failed list routes to `Local(0)`.
   */
  lemma RouteSpec(hash: u64, nodes: Result<seq<ClusterNode>>)
    ensures nodes.Err? || nodes.value == [] ==> RouteAddr(hash, nodes) == Local(0)
    ensures nodes.Ok? && nodes.value != [] ==>
      var i := hash % |nodes.value|;
      var r := RouteAddr(hash, nodes);
      && r.index == i < |nodes.value|
      && (r.Local? <==> nodes.value[i].isLocal)
      && (r.Remote? ==> r.addr == nodes.value[i].addr)
  {
  }

  /**
   * Routing over the listing of a well-formed table: before the first
   * snapshot (an empty table) every key routes to `Local(0)`, the
   * synthesized local node; otherwise the slot chosen is the cluster index
   * of the record under the `hash % n`-th smallest id, and the route is
   * `Local` exactly when that record is this node.
   */
  lemma RouteForStore(thisId: u64, st: Store, hash: u64)
    requires WellFormed(thisId, st)
    ensures st.nodes == map[] ==>
      RouteAddr(hash, GetAllValidNodes(Ok(NodeManage.AllNodes(Listing.AllNodes(thisId, st.nodes))))) == Local(0)
    ensures st.nodes != map[] ==>
      var r := RouteAddr(hash, GetAllValidNodes(Ok(NodeManage.AllNodes(Listing.AllNodes(thisId, st.nodes)))));
      var k := SortedKeys(st.nodes.Keys)[hash % |st.nodes|];
      && k in st.nodes
      && r.index == st.nodes[k].index == hash % |st.nodes|
      && (r.Local? <==> k == thisId)
      && (r.Remote? ==> r.addr == st.nodes[k].addr)
  {
    if st.nodes != map[] {
      RouteNonEmpty(thisId, st, hash);
    }
  }

  lemma RouteNonEmpty(thisId: u64, st: Store, hash: u64)
    requires WellFormed(thisId, st)
    requires st.nodes != map[]
    ensures var r := RouteAddr(hash, GetAllValidNodes(Ok(NodeManage.AllNodes(Listing.AllNodes(thisId, st.nodes)))));
      var k := SortedKeys(st.nodes.Keys)[hash % |st.nodes|];
      && k in st.nodes
      && r.index == st.nodes[k].index == hash % |st.nodes|
      && (r.Local? <==> k == thisId)
      && (r.Remote? ==> r.addr == st.nodes[k].addr)
  {
    Listing.ValuesSpec(st.nodes);
    var list := Listing.AllNodes(thisId, st.nodes);
    var i := hash % |st.nodes|;
    var k := SortedKeys(st.nodes.Keys)[i];
    assert list[i] == ToClusterNode(st.nodes[k]);
    assert RecordOk(thisId, st, k);
    SortedRank(st.nodes.Keys, i);
  }

  /** Over the listing of a well-formed table, the other nodes are all records but this node's. */
  lemma OthersForStore(thisId: u64, st: Store)
    requires WellFormed(thisId, st)
    ensures var all := Listing.AllNodes(thisId, st.nodes);
      var r := GetOtherValidNodes(GetAllValidNodes(Ok(NodeManage.AllNodes(all))));
      && r.Ok?
      && |r.value| == |all| - 1
      && AscendingNodeIds(r.value)
      && (forall n :: n in r.value <==> n in all && n.id != thisId)
  {
    var all := Listing.AllNodes(thisId, st.nodes);
    Listing.AllNodesInOrder(thisId, st);
    Listing.AllNodesOneLocal(thisId, st);
    OthersOfListing(thisId, all);
  }

  /** Dropping the local entry from a listing with one local entry, this node's. */
  lemma OthersOfListing(thisId: u64, all: seq<ClusterNode>)
    requires forall i :: 0 <= i < |all| ==> (all[i].isLocal <==> all[i].id == thisId)
    requires forall i, j :: 0 <= i < j < |all| ==> all[i].id < all[j].id
    requires exists i :: 0 <= i < |all| && all[i].isLocal
    requires forall i, j :: 0 <= i < |all| && 0 <= j < |all| && all[i].isLocal && all[j].isLocal ==> i == j
    ensures |Others(all)| == |all| - 1
    ensures AscendingNodeIds(Others(all))
    ensures forall n :: n in Others(all) <==> n in all && n.id != thisId
  {
    OthersOrder(all);
    forall n ensures n in Others(all) <==> n in all && n.id != thisId {
      OthersMembership(all, n);
    }
    OneLocalCount(all);
  }

  /** A list with exactly one local entry has local count one. */
  lemma {:induction false} OneLocalCount(all: seq<ClusterNode>)
    requires exists i :: 0 <= i < |all| && all[i].isLocal
    requires forall i, j :: 0 <= i < |all| && 0 <= j < |all| && all[i].isLocal && all[j].isLocal ==> i == j
    ensures LocalCount(all) == 1
    decreases |all|
  {
    var init := all[..|all| - 1];
    if all[|all| - 1].isLocal {
      NoLocalCount(init);
    } else {
      OneLocalCount(init);
    }
  }

  lemma {:induction false} NoLocalCount(all: seq<ClusterNode>)
    requires forall i :: 0 <= i < |all| ==> !all[i].isLocal
    ensures LocalCount(all) == 0
    decreases |all|
  {
    if all != [] {
      NoLocalCount(all[..|all| - 1]);
    }
  }

  // ---------------------------------------------------------------------
  // A worked scenario
  // ---------------------------------------------------------------------

  /** The snapshot of the scenario below: ids 1, 2, 3 at addresses "a", "b", "c". */
  function ThreeNodes(): Snapshot {
    [(1, "a"), (2, "b"), (3, "c")]
  }

  lemma ThreeNodesFacts()
    ensures Ids(ThreeNodes()) == {1, 2, 3}
    ensures LastAddr(ThreeNodes(), 1) == "a" && LastAddr(ThreeNodes(), 2) == "b" && LastAddr(ThreeNodes(), 3) == "c"
  {
    var ns1: Snapshot := [(1, "a")];
    var ns2: Snapshot := ns1 + [(2, "b")];
    var ns := ThreeNodes();
    assert ns1[..0] == [] && ns2[..1] == ns1 && ns[..2] == ns2;
    assert Ids(ns1) == {1};
    assert Ids(ns2) == {1, 2};
  }

  /** The records of any result of `update_nodes` with `ThreeNodes()` on an empty table, at node 2. */
  lemma ThreeNodesRecords(st: Store)
    requires Shape(2, Store(map[], 0), ThreeNodes(), st)
    ensures st.nodes.Keys == {1, 2, 3}
    ensures ToClusterNode(st.nodes[1]) == ClusterNode(1, 0, false, "a", Valid)
    ensures ToClusterNode(st.nodes[2]) == ClusterNode(2, 1, true, "b", Valid)
    ensures ToClusterNode(st.nodes[3]) == ClusterNode(3, 2, false, "c", Valid)
  {
    var ns := ThreeNodes();
    var s0 := Store(map[], 0);
    ThreeNodesFacts();
    RankOfThree(st.nodes.Keys);
    assert ShapeAt(2, s0, ns, st, 1) && ShapeAt(2, s0, ns, st, 2) && ShapeAt(2, s0, ns, st, 3);
  }

  lemma RankOfThree(s: set<u64>)
    requires s == {1, 2, 3}
    ensures Rank(s, 1) == 0 && Rank(s, 2) == 1 && Rank(s, 3) == 2
  {
    SortedKeysUnique(s, [1, 2, 3]);
  }

  /** The listing of a table with keys 1, 2, 3 is its three records in that order. */
  lemma ListingOfThree(thisId: u64, m: map<u64, InnerNode>)
    requires m.Keys == {1, 2, 3}
    ensures var r := Listing.AllNodes(thisId, m);
      |r| == 3 && r[0] == ToClusterNode(m[1]) && r[1] == ToClusterNode(m[2]) && r[2] == ToClusterNode(m[3])
  {
    SortedKeysUnique(m.Keys, [1, 2, 3]);
    var vs := Listing.Values(m);
    assert |vs| == 3 && vs[0] == m[1] && vs[1] == m[2] && vs[2] == m[3];
  }

  /**
   * Node 2 of a three-node cluster: after the first snapshot the listing is
   * ids 1, 2, 3 at indices 0, 1, 2; hash 7 routes to slot 1, this node, and
   * hash 8 to slot 2, the peer at "c".
   */
  lemma ThreeNodeCluster()
    ensures var list := Listing.AllNodes(2, Reconcile(2, Store(map[], 0), ThreeNodes()).nodes);
      && list == [ClusterNode(1, 0, false, "a", Valid), ClusterNode(2, 1, true, "b", Valid), ClusterNode(3, 2, false, "c", Valid)]
      && RouteAddr(7, Ok(list)) == Local(1)
      && RouteAddr(8, Ok(list)) == Remote(2, "c")
  {
    var st := Reconcile(2, Store(map[], 0), ThreeNodes());
    ReconcileShape(2, Store(map[], 0), ThreeNodes());
    ThreeNodesRecords(st);
    ThreeNodesRouting(st.nodes);
  }

  lemma ThreeNodesRouting(m: map<u64, InnerNode>)
    requires m.Keys == {1, 2, 3}
    requires ToClusterNode(m[1]) == ClusterNode(1, 0, false, "a", Valid)
    requires ToClusterNode(m[2]) == ClusterNode(2, 1, true, "b", Valid)
    requires ToClusterNode(m[3]) == ClusterNode(3, 2, false, "c", Valid)
    ensures var list := Listing.AllNodes(2, m);
      && list == [ClusterNode(1, 0, false, "a", Valid), ClusterNode(2, 1, true, "b", Valid), ClusterNode(3, 2, false, "c", Valid)]
      && RouteAddr(7, Ok(list)) == Local(1)
      && RouteAddr(8, Ok(list)) == Remote(2, "c")
  {
    ListingOfThree(2, m);
  }
}

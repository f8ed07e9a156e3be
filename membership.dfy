/**
 * The membership table of `InnerNodeManage` as values: the snapshot that
 * `update_nodes` applies, the steps it takes, the queries over the table,
 * and the invariants these keep.
 */
module Membership {
  import opened Wrappers
  import opened NodeModel

  /** A desired membership: the `(id, addr)` pairs of an `UpdateNodes` request. */
  type Snapshot = seq<(u64, string)>

  /**
   * The mutable state of `InnerNodeManage`: the `BTreeMap` from id to record,
   * and the number of sync actors started so far, which is the handle the
   * next one receives.
   */
  datatype Store = Store(nodes: map<u64, InnerNode>, nextSender: nat)

  /** The ids of a snapshot, as the `HashSet` `new_sets` collects them. */
  function Ids(ns: Snapshot): set<u64>
    decreases |ns|
  {
    if ns == [] then {} else Ids(ns[..|ns| - 1]) + {ns[|ns| - 1].0}
  }

  lemma IdsInit(ns: Snapshot)
    requires ns != []
    ensures Ids(ns) == Ids(ns[..|ns| - 1]) + {ns[|ns| - 1].0}
  {
  }

  /** `k` is an id of the snapshot exactly when some pair carries it. */
  lemma {:induction false} IdsMembership(ns: Snapshot, k: u64)
    ensures k in Ids(ns) <==> exists i :: 0 <= i < |ns| && ns[i].0 == k
    decreases |ns|
  {
    if ns != [] {
      var init := ns[..|ns| - 1];
      IdsMembership(init, k);
      if k in Ids(init) {
        var i :| 0 <= i < |init| && init[i].0 == k;
        assert ns[i].0 == k;
      }
      if exists i :: 0 <= i < |ns| && ns[i].0 == k {
        var i :| 0 <= i < |ns| && ns[i].0 == k;
        if i < |init| { assert init[i].0 == k; }
      }
    }
  }

  /** The address of the last pair for `k`: with duplicate ids, the last one wins. */
  function LastAddr(ns: Snapshot, k: u64): string
    requires k in Ids(ns)
    decreases |ns|
  {
    if ns[|ns| - 1].0 == k then ns[|ns| - 1].1
    else LastAddr(ns[..|ns| - 1], k)
  }

  /** The address of the first pair for `k`: the one a newly started sync actor is given. */
  function FirstAddr(ns: Snapshot, k: u64): string
    requires k in Ids(ns)
    decreases |ns|
  {
    if k in Ids(ns[..|ns| - 1]) then FirstAddr(ns[..|ns| - 1], k)
    else ns[|ns| - 1].1
  }

  /** `LastAddr` is the address of the last pair in the snapshot that carries `k`. */
  lemma {:induction false} LastAddrIsLast(ns: Snapshot, k: u64)
    requires k in Ids(ns)
    ensures exists i :: 0 <= i < |ns| && ns[i] == (k, LastAddr(ns, k)) && forall j :: i < j < |ns| ==> ns[j].0 != k
    decreases |ns|
  {
    var n := |ns| - 1;
    if ns[n].0 == k {
      assert ns[n] == (k, LastAddr(ns, k));
    } else {
      var init := ns[..n];
      LastAddrIsLast(init, k);
      var i :| 0 <= i < |init| && init[i] == (k, LastAddr(init, k)) && forall j :: i < j < |init| ==> init[j].0 != k;
      assert ns[i] == (k, LastAddr(ns, k));
      assert forall j :: i < j < |ns| ==> ns[j].0 != k by {
        forall j | i < j < |ns| ensures ns[j].0 != k {
          if j < n { assert init[j] == ns[j]; }
        }
      }
    }
  }

  /** `FirstAddr` is the address of the first pair in the snapshot that carries `k`. */
  lemma {:induction false} FirstAddrIsFirst(ns: Snapshot, k: u64)
    requires k in Ids(ns)
    ensures exists i :: 0 <= i < |ns| && ns[i] == (k, FirstAddr(ns, k)) && forall j :: 0 <= j < i ==> ns[j].0 != k
    decreases |ns|
  {
    var n := |ns| - 1;
    var init := ns[..n];
    if k in Ids(init) {
      FirstAddrIsFirst(init, k);
      var i :| 0 <= i < |init| && init[i] == (k, FirstAddr(init, k)) && forall j :: 0 <= j < i ==> init[j].0 != k;
      assert ns[i] == (k, FirstAddr(ns, k));
      assert forall j :: 0 <= j < i ==> ns[j].0 != k by {
        forall j | 0 <= j < i ensures ns[j].0 != k {
          assert init[j] == ns[j];
        }
      }
    } else {
      IdsMembership(init, k);
      assert ns[n] == (k, FirstAddr(ns, k));
      assert forall j :: 0 <= j < n ==> ns[j].0 != k by {
        forall j | 0 <= j < n ensures ns[j].0 != k {
          assert init[j] == ns[j];
        }
      }
    }
  }

  // ---------------------------------------------------------------------
  // The steps of update_nodes
  // ---------------------------------------------------------------------

  /** The table after the ids missing from the snapshot are removed. */
  function Prune(m: map<u64, InnerNode>, keep: set<u64>): (r: map<u64, InnerNode>)
    ensures r.Keys == m.Keys * keep
    ensures forall k :: k in r ==> r[k] == m[k]
  {
    map k | k in m && k in keep :: m[k]
  }

  /**
   * One pass of the loop over the snapshot: an existing record gets the new
   * address; a missing one is created `Valid`, local iff it is this node,
   * and with a newly started sync actor iff it is not local.
   */
  function UpsertOne(thisId: u64, st: Store, e: (u64, string)): Store {
    var (k, a) := e;
    if k in st.nodes then
      Store(st.nodes[k := st.nodes[k].(addr := a)], st.nextSender)
    else if k == thisId then
      Store(st.nodes[k := InnerNode(k, 0, true, a, Valid, None)], st.nextSender)
    else
      Store(st.nodes[k := InnerNode(k, 0, false, a, Valid, Some(SyncSender(st.nextSender, k, a)))],
            st.nextSender + 1)
  }

  /** The loop over the snapshot, pair by pair in order. */
  function Upserts(thisId: u64, st: Store, ns: Snapshot): Store
    decreases |ns|
  {
    if ns == [] then st
    else UpsertOne(thisId, Upserts(thisId, st, ns[..|ns| - 1]), ns[|ns| - 1])
  }

  /** `get_this_node`: the stored local record, or a synthesized `Valid` local one. */
  function ThisRecord(thisId: u64, m: map<u64, InnerNode>): InnerNode {
    if thisId in m then m[thisId] else InnerNode(thisId, 0, true, "", Valid, None)
  }

  /** Inserting the local record when the snapshot left it out. */
  function EnsureLocal(thisId: u64, m: map<u64, InnerNode>): (r: map<u64, InnerNode>)
    ensures r.Keys == m.Keys + {thisId}
    ensures forall k :: k in m ==> r[k] == m[k]
    ensures thisId !in m ==> r[thisId] == InnerNode(thisId, 0, true, "", Valid, None)
  {
    if thisId in m then m else m[thisId := ThisRecord(thisId, m)]
  }

  /** `update_nodes_index`: every record's index becomes its ascending-id rank. */
  function Reindex(m: map<u64, InnerNode>): (r: map<u64, InnerNode>)
    ensures r.Keys == m.Keys
    ensures forall k :: k in m ==> r[k].index == Rank(m.Keys, k)
    ensures forall k :: k in m ==> r[k] == m[k].(index := r[k].index)
  {
    RankBound(m.Keys);
    map k | k in m :: m[k].(index := Rank(m.Keys, k))
  }

  /** A map that agrees with `m` except that every index is its rank is `Reindex(m)`. */
  lemma ReindexAll(m: map<u64, InnerNode>, r: map<u64, InnerNode>)
    requires r.Keys == m.Keys
    requires forall k :: k in r ==> r[k] == m[k].(index := r[k].index)
    requires forall k :: k in r ==> r[k].index == Rank(m.Keys, k)
    ensures r == Reindex(m)
  {
    var t := Reindex(m);
    forall k | k in r ensures r[k] == t[k] {
      assert r[k] == m[k].(index := r[k].index);
      assert t[k] == m[k].(index := t[k].index);
    }
  }

  /** `update_nodes` as a function of the old state and the snapshot. */
  function Reconcile(thisId: u64, st: Store, ns: Snapshot): Store {
    var kept := Store(Prune(st.nodes, Ids(ns)), st.nextSender);
    var up := Upserts(thisId, kept, ns);
    Store(Reindex(EnsureLocal(thisId, up.nodes)), up.nextSender)
  }

  // ---------------------------------------------------------------------
  // Invariants
  // ---------------------------------------------------------------------

  /** No two of the records with keys in `ks` hold the same sync actor. */
  ghost predicate DistinctHandles(m: map<u64, InnerNode>, ks: set<u64>) {
    forall k1, k2 ::
      k1 in ks && k2 in ks && k1 in m && k2 in m && k1 != k2
      && m[k1].syncSender.Some? && m[k2].syncSender.Some?
      ==> m[k1].syncSender.value.handle != m[k2].syncSender.value.handle
  }

  /** What a record created from the snapshot looks like (index aside). */
  ghost predicate Created(thisId: u64, n: InnerNode, k: u64, lastAddr: string, firstAddr: string, lo: nat, hi: nat) {
    && n.id == k
    && n.isLocal == (k == thisId)
    && n.addr == lastAddr
    && n.status == Valid
    && (n.syncSender.Some? <==> k != thisId)
    && (n.syncSender.Some? ==>
          && n.syncSender.value.id == k
          && n.syncSender.value.addr == firstAddr
          && lo <= n.syncSender.value.handle < hi)
  }

  ghost predicate RecordOk(thisId: u64, st: Store, k: u64)
    requires k in st.nodes
  {
    var n := st.nodes[k];
    && n.id == k
    && n.isLocal == (k == thisId)
    && (n.syncSender.Some? <==> !n.isLocal)
    && (n.syncSender.Some? ==> n.syncSender.value.id == k && n.syncSender.value.handle < st.nextSender)
    && n.index == Rank(st.nodes.Keys, k)
  }

  /**
   * The table's invariant: keyed by id; local exactly when the id is this
   * node's; a sync actor exactly on non-local records, each its own, all
   * started before; indices are ascending-id ranks; and once the table is
   * not empty it holds the local record.
   */
  ghost predicate WellFormed(thisId: u64, st: Store) {
    && (st.nodes == map[] || thisId in st.nodes)
    && (forall k :: k in st.nodes ==> RecordOk(thisId, st, k))
    && DistinctHandles(st.nodes, st.nodes.Keys)
  }

  // ---------------------------------------------------------------------
  // What update_nodes does
  // ---------------------------------------------------------------------

  lemma {:induction false} UpsertsKeys(thisId: u64, st: Store, ns: Snapshot)
    ensures Upserts(thisId, st, ns).nodes.Keys == st.nodes.Keys + Ids(ns)
    decreases |ns|
  {
    if ns == [] {
      assert Ids(ns) == {};
    } else {
      UpsertsKeys(thisId, st, ns[..|ns| - 1]);
      IdsInit(ns);
    }
  }

  lemma {:induction false} UpsertsCount(thisId: u64, st: Store, ns: Snapshot)
    ensures Upserts(thisId, st, ns).nextSender == st.nextSender + |Ids(ns) - st.nodes.Keys - {thisId}|
    decreases |ns|
  {
    if ns == [] {
      assert Ids(ns) == {};
    } else {
      var init, k0 := ns[..|ns| - 1], ns[|ns| - 1].0;
      UpsertsCount(thisId, st, init);
      UpsertsKeys(thisId, st, init);
      IdsInit(ns);
      UpsertOneCount(thisId, Upserts(thisId, st, init), ns[|ns| - 1], st.nodes.Keys, Ids(init));
    }
  }

  lemma UpsertOneCount(thisId: u64, p: Store, e: (u64, string), base: set<u64>, ids: set<u64>)
    requires p.nodes.Keys == base + ids
    ensures UpsertOne(thisId, p, e).nextSender + |ids - base - {thisId}|
         == p.nextSender + |ids + {e.0} - base - {thisId}|
  {
    var created0 := ids - base - {thisId};
    var created := ids + {e.0} - base - {thisId};
    if e.0 in p.nodes || e.0 == thisId {
      assert created == created0;
    } else {
      assert created == created0 + {e.0};
    }
  }

  lemma {:induction false} UpsertsKept(thisId: u64, st: Store, ns: Snapshot)
    ensures var r := Upserts(thisId, st, ns);
      forall k :: k in st.nodes ==>
        k in r.nodes && r.nodes[k] == (if k in Ids(ns) then st.nodes[k].(addr := LastAddr(ns, k)) else st.nodes[k])
    decreases |ns|
  {
    if ns == [] {
      assert Ids(ns) == {};
    } else {
      var init, e := ns[..|ns| - 1], ns[|ns| - 1];
      UpsertsKept(thisId, st, init);
      IdsInit(ns);
      var p := Upserts(thisId, st, init);
      var r := UpsertOne(thisId, p, e);
      assert Upserts(thisId, st, ns) == r;
      forall k | k in st.nodes
        ensures k in r.nodes && r.nodes[k] == (if k in Ids(ns) then st.nodes[k].(addr := LastAddr(ns, k)) else st.nodes[k])
      {
        if k == e.0 {
          assert LastAddr(ns, k) == e.1;
        } else if k in Ids(init) {
          assert LastAddr(ns, k) == LastAddr(init, k);
        }
      }
    }
  }

  lemma {:induction false} UpsertsCreated(thisId: u64, st: Store, ns: Snapshot)
    ensures var r := Upserts(thisId, st, ns);
      && st.nextSender <= r.nextSender
      && forall k :: k in Ids(ns) && k !in st.nodes ==>
           k in r.nodes && Created(thisId, r.nodes[k], k, LastAddr(ns, k), FirstAddr(ns, k), st.nextSender, r.nextSender)
    decreases |ns|
  {
    if ns == [] {
      assert Ids(ns) == {};
    } else {
      var init, e := ns[..|ns| - 1], ns[|ns| - 1];
      UpsertsCreated(thisId, st, init);
      UpsertsKeys(thisId, st, init);
      IdsInit(ns);
      var p := Upserts(thisId, st, init);
      var r := UpsertOne(thisId, p, e);
      assert Upserts(thisId, st, ns) == r;
      forall k | k in Ids(ns) && k !in st.nodes
        ensures k in r.nodes && Created(thisId, r.nodes[k], k, LastAddr(ns, k), FirstAddr(ns, k), st.nextSender, r.nextSender)
      {
        if k in Ids(init) {
          assert FirstAddr(ns, k) == FirstAddr(init, k);
          if k == e.0 {
            assert LastAddr(ns, k) == e.1;
          } else {
            assert LastAddr(ns, k) == LastAddr(init, k);
          }
        } else {
          assert k == e.0 && k !in p.nodes;
          assert LastAddr(ns, k) == e.1 && FirstAddr(ns, k) == e.1;
        }
      }
    }
  }

  lemma {:induction false} UpsertsHandles(thisId: u64, st: Store, ns: Snapshot)
    ensures DistinctHandles(Upserts(thisId, st, ns).nodes, Ids(ns) - st.nodes.Keys)
    decreases |ns|
  {
    if ns == [] {
      assert Ids(ns) == {};
    } else {
      var init, e := ns[..|ns| - 1], ns[|ns| - 1];
      UpsertsHandles(thisId, st, init);
      UpsertsCreated(thisId, st, init);
      UpsertsKeys(thisId, st, init);
      IdsInit(ns);
      var p := Upserts(thisId, st, init);
      var r := UpsertOne(thisId, p, e);
      assert Upserts(thisId, st, ns) == r;
      var added := Ids(ns) - st.nodes.Keys;
      forall k1, k2 | k1 in added && k2 in added && k1 in r.nodes && k2 in r.nodes && k1 != k2
          && r.nodes[k1].syncSender.Some? && r.nodes[k2].syncSender.Some?
        ensures r.nodes[k1].syncSender.value.handle != r.nodes[k2].syncSender.value.handle
      {
        if e.0 !in p.nodes && (k1 == e.0 || k2 == e.0) {
          var other := if k1 == e.0 then k2 else k1;
          assert other in Ids(init) - st.nodes.Keys;
          assert Created(thisId, p.nodes[other], other, LastAddr(init, other), FirstAddr(init, other), st.nextSender, p.nextSender);
        } else {
          assert k1 in Ids(init) - st.nodes.Keys && k2 in Ids(init) - st.nodes.Keys;
        }
      }
    }
  }

  /** The table `update_nodes` builds before it renumbers the indices. */
  function Unindexed(thisId: u64, st: Store, ns: Snapshot): Store {
    var up := Upserts(thisId, Store(Prune(st.nodes, Ids(ns)), st.nextSender), ns);
    Store(EnsureLocal(thisId, up.nodes), up.nextSender)
  }

  lemma ReconcileUnindexed(thisId: u64, st: Store, ns: Snapshot)
    ensures var u := Unindexed(thisId, st, ns);
      Reconcile(thisId, st, ns) == Store(Reindex(u.nodes), u.nextSender)
  {
  }

  /** The key set after `update_nodes` is the snapshot's ids plus this node's. */
  lemma ReconcileKeys(thisId: u64, st: Store, ns: Snapshot)
    ensures Reconcile(thisId, st, ns).nodes.Keys == Ids(ns) + {thisId}
  {
    var kept := Store(Prune(st.nodes, Ids(ns)), st.nextSender);
    UpsertsKeys(thisId, kept, ns);
    ReconcileUnindexed(thisId, st, ns);
  }

  /** One sync actor is started per id that is new to the table and not local. */
  lemma ReconcileStarted(thisId: u64, st: Store, ns: Snapshot)
    ensures Reconcile(thisId, st, ns).nextSender == st.nextSender + |Ids(ns) - st.nodes.Keys - {thisId}|
  {
    var kept := Store(Prune(st.nodes, Ids(ns)), st.nextSender);
    UpsertsCount(thisId, kept, ns);
    ReconcileUnindexed(thisId, st, ns);
    assert Ids(ns) - kept.nodes.Keys - {thisId} == Ids(ns) - st.nodes.Keys - {thisId};
  }

  /** Every index after `update_nodes` is its record's ascending-id rank. */
  lemma ReconcileIndex(thisId: u64, st: Store, ns: Snapshot)
    ensures var m := Reconcile(thisId, st, ns).nodes;
      forall k :: k in m ==> m[k].index == Rank(m.Keys, k)
  {
    ReconcileUnindexed(thisId, st, ns);
  }

  /**
   * Surviving ids keep their record: status, sync actor, locality and id are
   * as they were; the address is the snapshot's last one for that id.
   */
  lemma ReconcileSurvivor(thisId: u64, st: Store, ns: Snapshot, k: u64)
    requires k in st.nodes && k in Ids(ns)
    ensures k in Reconcile(thisId, st, ns).nodes
    ensures var n := Reconcile(thisId, st, ns).nodes[k];
      n == st.nodes[k].(addr := LastAddr(ns, k), index := n.index)
  {
    var kept := Store(Prune(st.nodes, Ids(ns)), st.nextSender);
    UpsertsKept(thisId, kept, ns);
    ReconcileUnindexed(thisId, st, ns);
  }

  /**
   * A record created by `update_nodes` is `Valid`, carries the snapshot's
   * last address for its id, is local iff it is this node, and has a
   * sync actor started by this call (bound to the first address given)
   * exactly when it is not local.
   */
  lemma ReconcileCreated(thisId: u64, st: Store, ns: Snapshot, k: u64)
    requires k !in st.nodes && k in Ids(ns)
    ensures k in Reconcile(thisId, st, ns).nodes
    ensures var r := Reconcile(thisId, st, ns);
      Created(thisId, r.nodes[k], k, LastAddr(ns, k), FirstAddr(ns, k), st.nextSender, r.nextSender)
  {
    var kept := Store(Prune(st.nodes, Ids(ns)), st.nextSender);
    UpsertsCreated(thisId, kept, ns);
    ReconcileUnindexed(thisId, st, ns);
  }

  /** A snapshot without this node gets a freshly synthesized local record. */
  lemma ReconcileLocalSynthesized(thisId: u64, st: Store, ns: Snapshot)
    requires thisId !in Ids(ns)
    ensures thisId in Reconcile(thisId, st, ns).nodes
    ensures Reconcile(thisId, st, ns).nodes[thisId].(index := 0) == InnerNode(thisId, 0, true, "", Valid, None)
  {
    var kept := Store(Prune(st.nodes, Ids(ns)), st.nextSender);
    UpsertsKeys(thisId, kept, ns);
    ReconcileUnindexed(thisId, st, ns);
  }

  /** Distinct handles carry over to a table whose senders agree on `ks`. */
  lemma DistinctHandlesTransfer(m1: map<u64, InnerNode>, m2: map<u64, InnerNode>, ks: set<u64>)
    requires DistinctHandles(m1, ks)
    requires forall k :: k in ks && k in m2 ==> k in m1 && m2[k].syncSender == m1[k].syncSender
    ensures DistinctHandles(m2, ks)
  {
  }

  /** The sync actors started by one `update_nodes` are pairwise distinct. */
  lemma ReconcileHandles(thisId: u64, st: Store, ns: Snapshot)
    ensures DistinctHandles(Reconcile(thisId, st, ns).nodes, Ids(ns) - st.nodes.Keys)
  {
    var kept := Store(Prune(st.nodes, Ids(ns)), st.nextSender);
    var ks := Ids(ns) - st.nodes.Keys;
    UpsertsHandles(thisId, kept, ns);
    UpsertsKeys(thisId, kept, ns);
    assert ks == Ids(ns) - kept.nodes.Keys;
    var up := Upserts(thisId, kept, ns);
    var u := Unindexed(thisId, st, ns);
    DistinctHandlesTransfer(up.nodes, u.nodes, ks);
    ReconcileUnindexed(thisId, st, ns);
    DistinctHandlesTransfer(u.nodes, Reconcile(thisId, st, ns).nodes, ks);
  }

  /** The index values a table holds. */
  ghost function Indices(m: map<u64, InnerNode>): set<nat> {
    set k | k in m :: m[k].index as nat
  }

  /** Ascending-id ranks as indices are `0 .. n-1`, each used once, in id order. */
  lemma DenseRanks(m: map<u64, InnerNode>)
    requires forall k :: k in m ==> m[k].index == Rank(m.Keys, k)
    ensures forall k :: k in m ==> m[k].index < |m|
    ensures forall i :: 0 <= i < |m| ==> i in Indices(m)
    ensures forall k1, k2 :: k1 in m && k2 in m ==> (k1 < k2 <==> m[k1].index < m[k2].index)
  {
    RankBound(m.Keys);
    SortedKeysSpec(m.Keys);
    forall i | 0 <= i < |m| ensures i in Indices(m) {
      var k := SortedKeys(m.Keys)[i];
      SortedRank(m.Keys, i);
      assert k in m && m[k].index == i;
    }
    forall k1, k2 | k1 in m && k2 in m ensures k1 < k2 <==> m[k1].index < m[k2].index {
      RankMonotone(m.Keys, k1, k2);
    }
  }

  /**
   * After `update_nodes` the indices are `0 .. n-1`, each used once, in
   * ascending-id order.
   */
  lemma ReconcileDenseIndex(thisId: u64, st: Store, ns: Snapshot)
    ensures var m := Reconcile(thisId, st, ns).nodes;
      && (forall k :: k in m ==> m[k].index < |m|)
      && (forall i :: 0 <= i < |m| ==> i in Indices(m))
      && (forall k1, k2 :: k1 in m && k2 in m ==> (k1 < k2 <==> m[k1].index < m[k2].index))
  {
    ReconcileIndex(thisId, st, ns);
    DenseRanks(Reconcile(thisId, st, ns).nodes);
  }

  /**
   * What the per-record lemmas say about record `k` of `r` as the result of
   * `update_nodes` on `st` and `ns`.
   */
  ghost predicate ShapeAt(thisId: u64, st: Store, ns: Snapshot, r: Store, k: u64) {
    && k in r.nodes
    && r.nodes[k].index == Rank(r.nodes.Keys, k)
    && (k in st.nodes && k in Ids(ns) ==>
          r.nodes[k] == st.nodes[k].(addr := LastAddr(ns, k), index := r.nodes[k].index))
    && (k !in st.nodes && k in Ids(ns) ==>
          Created(thisId, r.nodes[k], k, LastAddr(ns, k), FirstAddr(ns, k), st.nextSender, r.nextSender))
    && (k !in Ids(ns) ==> r.nodes[k].(index := 0) == InnerNode(thisId, 0, true, "", Valid, None))
  }

  /**
   * Everything the lemmas above say about `r` as the result of
   * `update_nodes` on `st` and `ns`, bundled so that later proofs can work
   * on `r` without unfolding `Reconcile`; the per-record part is only
   * instantiated where a proof names `ShapeAt` for a key.
   */
  ghost predicate Shape(thisId: u64, st: Store, ns: Snapshot, r: Store) {
    && r.nodes.Keys == Ids(ns) + {thisId}
    && r.nextSender == st.nextSender + |Ids(ns) - st.nodes.Keys - {thisId}|
    && (forall k {:trigger ShapeAt(thisId, st, ns, r, k)} :: k in r.nodes ==> ShapeAt(thisId, st, ns, r, k))
    && DistinctHandles(r.nodes, Ids(ns) - st.nodes.Keys)
  }

  lemma ReconcileShape(thisId: u64, st: Store, ns: Snapshot)
    ensures Shape(thisId, st, ns, Reconcile(thisId, st, ns))
  {
    var r := Reconcile(thisId, st, ns);
    ReconcileKeys(thisId, st, ns);
    ReconcileStarted(thisId, st, ns);
    ReconcileIndex(thisId, st, ns);
    forall k | k in r.nodes ensures ShapeAt(thisId, st, ns, r, k) {
      if k in st.nodes && k in Ids(ns) {
        ReconcileSurvivor(thisId, st, ns, k);
      } else if k in Ids(ns) {
        ReconcileCreated(thisId, st, ns, k);
      } else {
        ReconcileLocalSynthesized(thisId, st, ns);
      }
    }
    ReconcileHandles(thisId, st, ns);
  }

  /** Each record of a result of `update_nodes` on a well-formed table satisfies the record invariant. */
  lemma ShapeRecordOk(thisId: u64, st: Store, ns: Snapshot, r: Store, k: u64)
    requires WellFormed(thisId, st)
    requires Shape(thisId, st, ns, r)
    requires k in r.nodes
    ensures RecordOk(thisId, r, k)
  {
    assert st.nextSender <= r.nextSender;
    assert ShapeAt(thisId, st, ns, r, k);
    if k in st.nodes && k in Ids(ns) {
      assert RecordOk(thisId, st, k);
    }
  }

  /** No two records of a result of `update_nodes` on a well-formed table hold the same sync actor. */
  lemma ShapeDistinct(thisId: u64, st: Store, ns: Snapshot, r: Store)
    requires WellFormed(thisId, st)
    requires Shape(thisId, st, ns, r)
    ensures DistinctHandles(r.nodes, r.nodes.Keys)
  {
    forall k1, k2 | k1 in r.nodes && k2 in r.nodes && k1 != k2
        && r.nodes[k1].syncSender.Some? && r.nodes[k2].syncSender.Some?
      ensures r.nodes[k1].syncSender.value.handle != r.nodes[k2].syncSender.value.handle
    {
      SenderOrigin(thisId, st, ns, r, k1);
      SenderOrigin(thisId, st, ns, r, k2);
    }
  }

  /** A sync actor after `update_nodes` is an old one kept with its id, or one started by this call. */
  lemma SenderOrigin(thisId: u64, st: Store, ns: Snapshot, r: Store, k: u64)
    requires WellFormed(thisId, st)
    requires Shape(thisId, st, ns, r)
    requires k in r.nodes && r.nodes[k].syncSender.Some?
    ensures k in Ids(ns)
    ensures k in st.nodes ==> r.nodes[k].syncSender == st.nodes[k].syncSender
    ensures var h := r.nodes[k].syncSender.value.handle;
      if k in st.nodes then h < st.nextSender else st.nextSender <= h
  {
    assert ShapeAt(thisId, st, ns, r, k);
    if k in st.nodes && k in Ids(ns) {
      assert RecordOk(thisId, st, k);
    }
  }

  /** `update_nodes` keeps the table's invariant. */
  lemma ReconcileWellFormed(thisId: u64, st: Store, ns: Snapshot)
    requires WellFormed(thisId, st)
    ensures WellFormed(thisId, Reconcile(thisId, st, ns))
  {
    var r := Reconcile(thisId, st, ns);
    ReconcileShape(thisId, st, ns);
    forall k | k in r.nodes ensures RecordOk(thisId, r, k) {
      ShapeRecordOk(thisId, st, ns, r, k);
    }
    ShapeDistinct(thisId, st, ns, r);
  }

  /** In a well-formed, non-empty table exactly one record is local: this node's, and it has no sync actor. */
  lemma ExactlyOneLocal(thisId: u64, st: Store)
    requires WellFormed(thisId, st)
    requires st.nodes != map[]
    ensures (set k | k in st.nodes && st.nodes[k].isLocal) == {thisId}
    ensures st.nodes[thisId].syncSender == None
  {
    assert RecordOk(thisId, st, thisId);
  }

  /** Re-applying a snapshot leaves each record of the first result as it was. */
  lemma ShapeSameRecord(thisId: u64, st: Store, ns: Snapshot, r1: Store, r2: Store, k: u64)
    requires Shape(thisId, st, ns, r1)
    requires Shape(thisId, r1, ns, r2)
    requires k in r2.nodes
    ensures k in r1.nodes && r2.nodes[k] == r1.nodes[k]
  {
    assert ShapeAt(thisId, st, ns, r1, k);
    assert ShapeAt(thisId, r1, ns, r2, k);
    if k in Ids(ns) {
      assert r1.nodes[k].addr == LastAddr(ns, k);
    }
  }

  /** Re-applying a snapshot starts no sync actor. */
  lemma ShapeSameNext(thisId: u64, st: Store, ns: Snapshot, r1: Store, r2: Store)
    requires Shape(thisId, st, ns, r1)
    requires Shape(thisId, r1, ns, r2)
    ensures r2.nextSender == r1.nextSender
  {
    assert Ids(ns) - r1.nodes.Keys - {thisId} == {};
  }

  /** Two results of `update_nodes` with the same snapshot, the second applied to the first, agree. */
  lemma ShapeIdempotent(thisId: u64, st: Store, ns: Snapshot, r1: Store, r2: Store)
    requires Shape(thisId, st, ns, r1)
    requires Shape(thisId, r1, ns, r2)
    ensures r2 == r1
  {
    forall k | k in r2.nodes ensures k in r1.nodes && r2.nodes[k] == r1.nodes[k] {
      ShapeSameRecord(thisId, st, ns, r1, r2, k);
    }
    ShapeSameNext(thisId, st, ns, r1, r2);
    SameStore(r1, r2);
  }

  lemma SameStore(r1: Store, r2: Store)
    requires r2.nodes.Keys == r1.nodes.Keys
    requires forall k :: k in r2.nodes ==> r2.nodes[k] == r1.nodes[k]
    requires r2.nextSender == r1.nextSender
    ensures r2 == r1
  {
    assert r2.nodes == r1.nodes;
  }

  /** Applying the same snapshot twice gives the same table as applying it once. */
  lemma ReconcileIdempotent(thisId: u64, st: Store, ns: Snapshot)
    ensures Reconcile(thisId, Reconcile(thisId, st, ns), ns) == Reconcile(thisId, st, ns)
  {
    ReconcileShape(thisId, st, ns);
    ReconcileShape(thisId, Reconcile(thisId, st, ns), ns);
    ShapeIdempotent(thisId, st, ns, Reconcile(thisId, st, ns), Reconcile(thisId, Reconcile(thisId, st, ns), ns));
  }
}

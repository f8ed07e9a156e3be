/**
 * The two read paths over the membership map: the ascending listing that
 * `get_all_nodes` hands out, and the recipients the `SendToOtherNodes`
 * arm of `handle` picks.
 */
module Listing {
  import opened Wrappers
  import opened NodeModel
  import opened Membership

  /** `all_nodes.values()`: the records in ascending-id order. */
  function Values(m: map<u64, InnerNode>): seq<InnerNode> {
    SortedKeysSpec(m.Keys);
    var ks := SortedKeys(m.Keys);
    seq(|ks|, i requires 0 <= i < |ks| => m[ks[i]])
  }

  /** Position `i` of the values is the record under the `i`-th smallest key. */
  lemma ValuesSpec(m: map<u64, InnerNode>)
    ensures |Values(m)| == |SortedKeys(m.Keys)| == |m|
    ensures forall i :: 0 <= i < |Values(m)| ==>
      SortedKeys(m.Keys)[i] in m && Values(m)[i] == m[SortedKeys(m.Keys)[i]]
  {
    SortedKeysSpec(m.Keys);
  }

  /**
   * In a well-formed table the values are listed by ascending id, each
   * record sits at the position its index names, and every record is listed.
   */
  lemma ValuesInOrder(thisId: u64, st: Store)
    requires WellFormed(thisId, st)
    ensures var vs := Values(st.nodes);
      && |vs| == |st.nodes|
      && (forall i :: 0 <= i < |vs| ==> vs[i].id in st.nodes && st.nodes[vs[i].id] == vs[i] && vs[i].index == i)
      && (forall i, j :: 0 <= i < j < |vs| ==> vs[i].id < vs[j].id)
      && (forall k :: k in st.nodes ==> st.nodes[k].index < |vs| && vs[st.nodes[k].index] == st.nodes[k])
  {
    var m := st.nodes;
    var vs := Values(m);
    var ks := SortedKeys(m.Keys);
    ValuesSpec(m);
    SortedKeysSpec(m.Keys);
    forall i | 0 <= i < |vs| ensures vs[i].id in m && m[vs[i].id] == vs[i] && vs[i].index == i {
      assert RecordOk(thisId, st, ks[i]);
      SortedRank(m.Keys, i);
    }
    forall i, j | 0 <= i < j < |vs| ensures vs[i].id < vs[j].id {
      assert RecordOk(thisId, st, ks[i]) && RecordOk(thisId, st, ks[j]);
    }
    forall k | k in m ensures m[k].index < |vs| && vs[m[k].index] == m[k] {
      assert RecordOk(thisId, st, k);
      var p := Rank(m.Keys, k);
      assert ks[p] == k;
    }
  }

  /** `get_all_nodes`: the synthesized local node for an empty map, otherwise every record in ascending-id order. */
  function AllNodes(thisId: u64, m: map<u64, InnerNode>): (r: seq<ClusterNode>)
    ensures |r| >= 1
    ensures m == map[] ==> r == [ClusterNode(thisId, 0, true, "", Valid)]
    ensures m != map[] ==> |r| == |m| == |Values(m)| && forall i :: 0 <= i < |r| ==> r[i] == ToClusterNode(Values(m)[i])
  {
    if |m| == 0 then [ToClusterNode(ThisRecord(thisId, m))]
    else
      ValuesSpec(m);
      var vs := Values(m);
      seq(|vs|, i requires 0 <= i < |vs| => ToClusterNode(vs[i]))
  }

  /**
   * Whenever the table is well-formed, the listing is in ascending-id
   * order, the entry at position `i` has index `i`, an entry is local
   * exactly when it is this node, and each record appears at the position
   * its index names.
   */
  lemma AllNodesInOrder(thisId: u64, st: Store)
    ensures WellFormed(thisId, st) ==> var r := AllNodes(thisId, st.nodes);
      && (forall i :: 0 <= i < |r| ==> r[i].index == i && (r[i].isLocal <==> r[i].id == thisId))
      && (forall i, j :: 0 <= i < j < |r| ==> r[i].id < r[j].id)
      && (forall k :: k in st.nodes ==> st.nodes[k].index < |r| && r[st.nodes[k].index] == ToClusterNode(st.nodes[k]))
  {
    var r := AllNodes(thisId, st.nodes);
    if WellFormed(thisId, st) && st.nodes != map[] {
      ValuesInOrder(thisId, st);
      var vs := Values(st.nodes);
      forall i | 0 <= i < |r| ensures r[i].index == i && (r[i].isLocal <==> r[i].id == thisId) {
        assert RecordOk(thisId, st, vs[i].id);
      }
    }
  }

  /** Exactly one entry of the listing of a well-formed table is local, and it is this node. */
  lemma AllNodesOneLocal(thisId: u64, st: Store)
    requires WellFormed(thisId, st)
    ensures var r := AllNodes(thisId, st.nodes);
      && (exists i :: 0 <= i < |r| && r[i].isLocal && r[i].id == thisId)
      && (forall i, j :: 0 <= i < |r| && 0 <= j < |r| && r[i].isLocal && r[j].isLocal ==> i == j)
  {
    var r := AllNodes(thisId, st.nodes);
    if st.nodes != map[] {
      AllNodesInOrder(thisId, st);
      assert RecordOk(thisId, st, thisId);
      var p := st.nodes[thisId].index as int;
      assert r[p].isLocal && r[p].id == thisId;
    } else {
      assert r[0].isLocal && r[0].id == thisId;
    }
  }

  // ---------------------------------------------------------------------
  // SendToOtherNodes
  // ---------------------------------------------------------------------

  /** A record the broadcast reaches: not local, `Valid`, and holding a sync actor. */
  predicate Eligible(n: InnerNode) {
    !n.isLocal && n.status == Valid && n.syncSender.Some?
  }

  /** The sync actors the broadcast loop sends to, in the order it visits `q`. */
  function BroadcastTargets(q: seq<InnerNode>): seq<SyncSender>
    decreases |q|
  {
    if q == [] then []
    else
      var n := q[|q| - 1];
      BroadcastTargets(q[..|q| - 1]) + (if Eligible(n) then [n.syncSender.value] else [])
  }

  /** The broadcast reaches a sync actor exactly when an eligible record holds it. */
  lemma {:induction false} BroadcastMembership(q: seq<InnerNode>, s: SyncSender)
    ensures s in BroadcastTargets(q) <==> exists i :: 0 <= i < |q| && Eligible(q[i]) && q[i].syncSender.value == s
    decreases |q|
  {
    if q != [] {
      var init := q[..|q| - 1];
      BroadcastMembership(init, s);
      if s in BroadcastTargets(init) {
        var i :| 0 <= i < |init| && Eligible(init[i]) && init[i].syncSender.value == s;
        assert q[i] == init[i];
      }
      if exists i :: 0 <= i < |q| && Eligible(q[i]) && q[i].syncSender.value == s {
        var i :| 0 <= i < |q| && Eligible(q[i]) && q[i].syncSender.value == s;
        if i < |init| {
          assert init[i] == q[i];
        }
      }
    }
  }

  /** Sync actors bound to strictly ascending peer ids: each peer at most once. */
  ghost predicate AscendingIds(t: seq<SyncSender>) {
    forall i, j :: 0 <= i < j < |t| ==> t[i].id < t[j].id
  }

  /**
   * Visiting records by ascending id, each holding a sync actor bound to
   * its own id, the broadcast reaches the peers once each, by ascending id.
   */
  lemma {:induction false} BroadcastAscending(q: seq<InnerNode>)
    requires forall i, j :: 0 <= i < j < |q| ==> q[i].id < q[j].id
    requires forall i :: 0 <= i < |q| && Eligible(q[i]) ==> q[i].syncSender.value.id == q[i].id
    ensures AscendingIds(BroadcastTargets(q))
    decreases |q|
  {
    if q != [] {
      var init := q[..|q| - 1];
      var n := q[|q| - 1];
      assert forall i, j :: 0 <= i < j < |init| ==> init[i].id < init[j].id by {
        forall i, j | 0 <= i < j < |init| ensures init[i].id < init[j].id {
          assert init[i] == q[i] && init[j] == q[j];
        }
      }
      BroadcastAscending(init);
      if Eligible(n) {
        var t0 := BroadcastTargets(init);
        forall x | x in t0 ensures x.id < n.syncSender.value.id {
          BroadcastMembership(init, x);
          var i :| 0 <= i < |init| && Eligible(init[i]) && init[i].syncSender.value == x;
          assert init[i] == q[i];
          assert q[i].id < q[|q| - 1].id;
        }
        assert n.syncSender.value.id == n.id;
        var t := BroadcastTargets(q);
        assert t == t0 + [n.syncSender.value];
        forall i, j | 0 <= i < j < |t| ensures t[i].id < t[j].id {
          if j == |t| - 1 {
            assert t[i] == t0[i] && t[i] in t0;
            assert t[j] == n.syncSender.value;
          } else {
            assert t[i] == t0[i] && t[j] == t0[j];
          }
        }
      }
    }
  }

  /**
   * Over a well-formed table the broadcast reaches the sync actor of every
   * non-local `Valid` record and nothing else.
   */
  lemma BroadcastForStore(thisId: u64, st: Store, s: SyncSender)
    requires WellFormed(thisId, st)
    ensures s in BroadcastTargets(Values(st.nodes)) <==>
      exists k :: k in st.nodes && k != thisId && st.nodes[k].status == Valid && st.nodes[k].syncSender == Some(s)
    ensures AscendingIds(BroadcastTargets(Values(st.nodes)))
  {
    var m := st.nodes;
    var vs := Values(m);
    BroadcastMembership(vs, s);
    ValuesInOrder(thisId, st);
    StoreAscending(thisId, st);
    if s in BroadcastTargets(vs) {
      var i :| 0 <= i < |vs| && Eligible(vs[i]) && vs[i].syncSender.value == s;
      var k := vs[i].id;
      assert RecordOk(thisId, st, k);
      assert k in m && k != thisId && m[k].status == Valid && m[k].syncSender == Some(s);
    }
    if exists k :: k in m && k != thisId && m[k].status == Valid && m[k].syncSender == Some(s) {
      var k :| k in m && k != thisId && m[k].status == Valid && m[k].syncSender == Some(s);
      assert RecordOk(thisId, st, k);
      var i := m[k].index as int;
      assert vs[i] == m[k] && Eligible(vs[i]);
    }
  }

  /** Over a well-formed table the broadcast reaches the peers by ascending id. */
  lemma StoreAscending(thisId: u64, st: Store)
    requires WellFormed(thisId, st)
    ensures AscendingIds(BroadcastTargets(Values(st.nodes)))
  {
    var vs := Values(st.nodes);
    ValuesInOrder(thisId, st);
    forall i | 0 <= i < |vs| && Eligible(vs[i]) ensures vs[i].syncSender.value.id == vs[i].id {
      assert RecordOk(thisId, st, vs[i].id);
    }
    BroadcastAscending(vs);
  }
}

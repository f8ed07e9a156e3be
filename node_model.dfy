/**
 * The value types of the cluster membership table (`NodeStatus`,
 * `ClusterNode`, `ClusterInnerNode`) and the ascending key order of the
 * `BTreeMap` that holds them.
 */
module NodeModel {
  import opened Wrappers

  /** Rust's `u64`: node ids, slot indices and hash values. */
  type u64 = x: int | 0 <= x < 0x1_0000_0000_0000_0000

  /** Health of a peer; `Valid` is the `Default`. No code changes it. */
  datatype NodeStatus = Valid | Ill | Unvalid

  /**
   * Handle of a started per-peer `ClusteSyncSender` actor. `handle` tells
   * two started actors apart; `id` and `addr` are the arguments the actor
   * was started with.
   */
  datatype SyncSender = SyncSender(handle: nat, id: u64, addr: string)

  /** `ClusterInnerNode`: the record kept in the membership map. */
  datatype InnerNode = InnerNode(
    id: u64,
    index: u64,
    isLocal: bool,
    addr: string,
    status: NodeStatus,
    syncSender: Option<SyncSender>)

  /** `ClusterNode`: the record handed out to callers, without the sender. */
  datatype ClusterNode = ClusterNode(
    id: u64,
    index: u64,
    isLocal: bool,
    addr: string,
    status: NodeStatus)

  /** `impl From<ClusterInnerNode> for ClusterNode`. */
  function ToClusterNode(n: InnerNode): ClusterNode {
    ClusterNode(n.id, n.index, n.isLocal, n.addr, n.status)
  }

  // ---------------------------------------------------------------------
  // Ascending key order (the iteration order of a BTreeMap<u64, _>)
  // ---------------------------------------------------------------------

  ghost predicate StrictlyIncreasing(q: seq<u64>) {
    forall i, j :: 0 <= i < j < |q| ==> q[i] < q[j]
  }

  predicate IsMin(m: u64, s: set<u64>) {
    m in s && forall j :: j in s ==> m <= j
  }

  lemma {:induction false} MinExists(s: set<u64>)
    requires s != {}
    ensures exists m :: IsMin(m, s)
  {
    var x :| x in s;
    if s - {x} != {} {
      MinExists(s - {x});
      var y :| IsMin(y, s - {x});
      assert forall j :: j in s ==> j == x || j in s - {x};
      if x < y { assert IsMin(x, s); } else { assert IsMin(y, s); }
    } else {
      assert s == {x};
      assert IsMin(x, s);
    }
  }

  /** The keys of `s` in ascending order (see `SortedKeysSpec`). */
  function SortedKeys(s: set<u64>): seq<u64>
    decreases |s|
  {
    if s == {} then []
    else
      MinExists(s);
      var m :| IsMin(m, s);
      [m] + SortedKeys(s - {m})
  }

  /** `SortedKeys(s)` lists every key of `s` once, in strictly ascending order. */
  lemma {:induction false} SortedKeysSpec(s: set<u64>)
    ensures |SortedKeys(s)| == |s|
    ensures forall k :: k in SortedKeys(s) <==> k in s
    ensures StrictlyIncreasing(SortedKeys(s))
    decreases |s|
  {
    if s != {} {
      MinExists(s);
      var m :| IsMin(m, s);
      var rest := SortedKeys(s - {m});
      SortedKeysSpec(s - {m});
      assert SortedKeys(s) == [m] + rest;
      var r := [m] + rest;
      forall i, j | 0 <= i < j < |r| ensures r[i] < r[j] {
        if i == 0 { assert r[j] == rest[j - 1] && r[j] in s - {m}; }
        else { assert r[i] == rest[i - 1] && r[j] == rest[j - 1]; }
      }
    }
  }

  /** Two ascending sequences with the same elements are equal. */
  lemma {:induction false} IncreasingSameElements(q1: seq<u64>, q2: seq<u64>)
    requires StrictlyIncreasing(q1) && StrictlyIncreasing(q2)
    requires forall k :: k in q1 <==> k in q2
    ensures q1 == q2
    decreases |q1|
  {
    assert q1 == [] || q1[0] in q1;
    assert q2 == [] || q2[0] in q2;
    if q1 != [] && q2 != [] {
      assert q1[0] == q2[0] by {
        assert q2[0] in q2 && q1[0] in q1;
        assert q2[0] in q1 && q1[0] in q2;
        var p1 :| 0 <= p1 < |q1| && q1[p1] == q2[0];
        var p2 :| 0 <= p2 < |q2| && q2[p2] == q1[0];
      }
      var t1, t2 := q1[1..], q2[1..];
      forall k | k in t1 ensures k in t2 {
        var p :| 0 <= p < |t1| && t1[p] == k;
        assert q1[0] < q1[p + 1];
        assert k in q2;
        var p' :| 0 <= p' < |q2| && q2[p'] == k;
        assert p' != 0;
        assert t2[p' - 1] == k;
      }
      forall k | k in t2 ensures k in t1 {
        var p :| 0 <= p < |t2| && t2[p] == k;
        assert q2[0] < q2[p + 1];
        assert k in q1;
        var p' :| 0 <= p' < |q1| && q1[p'] == k;
        assert p' != 0;
        assert t1[p' - 1] == k;
      }
      IncreasingSameElements(t1, t2);
      assert q1 == [q1[0]] + t1 && q2 == [q2[0]] + t2;
    }
  }

  /** An ascending sequence is determined by its elements. */
  lemma SortedKeysUnique(s: set<u64>, q: seq<u64>)
    requires StrictlyIncreasing(q)
    requires forall k :: k in q <==> k in s
    ensures q == SortedKeys(s)
  {
    SortedKeysSpec(s);
    IncreasingSameElements(q, SortedKeys(s));
  }

  /** Position of `k` in `q`. */
  function IndexOf(q: seq<u64>, k: u64): (p: nat)
    requires k in q
    ensures p < |q| && q[p] == k
  {
    if q[0] == k then 0 else 1 + IndexOf(q[1..], k)
  }

  /** The slot `k` takes when the keys `s` are listed in ascending order. */
  function Rank(s: set<u64>, k: u64): nat
    requires k in s
  {
    SortedKeysSpec(s);
    IndexOf(SortedKeys(s), k)
  }

  lemma {:induction false} IncreasingLowerBound(q: seq<u64>, i: nat)
    requires StrictlyIncreasing(q)
    requires i < |q|
    ensures i <= q[i]
  {
    if i > 0 {
      IncreasingLowerBound(q, i - 1);
      assert q[i - 1] < q[i];
    }
  }

  /** The key at position `i` of the ascending order has rank `i`. */
  lemma SortedRank(s: set<u64>, i: nat)
    requires i < |SortedKeys(s)|
    ensures SortedKeys(s)[i] in s
    ensures Rank(s, SortedKeys(s)[i]) == i
    ensures i <= SortedKeys(s)[i]
  {
    SortedKeysSpec(s);
    var r := SortedKeys(s);
    var p := IndexOf(r, r[i]);
    assert p == i;
    IncreasingLowerBound(r, i);
  }

  /** Every rank is a position `0 .. |s|-1`, and fits in a u64. */
  lemma RankBound(s: set<u64>)
    ensures forall k :: k in s ==> Rank(s, k) < |s| && Rank(s, k) <= k
  {
    SortedKeysSpec(s);
    forall k | k in s ensures Rank(s, k) < |s| && Rank(s, k) <= k {
      SortedRank(s, Rank(s, k));
    }
  }

  /** A smaller key has a smaller rank: ranks follow ascending id order. */
  lemma RankMonotone(s: set<u64>, k1: u64, k2: u64)
    requires k1 in s && k2 in s
    ensures k1 < k2 <==> Rank(s, k1) < Rank(s, k2)
  {
    SortedKeysSpec(s);
    var r := SortedKeys(s);
    var p1, p2 := Rank(s, k1), Rank(s, k2);
    assert r[p1] == k1 && r[p2] == k2;
    if p1 < p2 { assert r[p1] < r[p2]; }
    if p2 < p1 { assert r[p2] < r[p1]; }
  }
}

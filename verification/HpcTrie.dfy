/** The trie of instruction addresses that is exported to hpcviewer: nodes are found or made child
    by child, and a node stands for the path of addresses from the root to it. */
module HpcTrie {
  import opened Options

  /** `hpcviewer_format_ip_node_t`; a pointer to a node is its rank of creation. */
  datatype IpNode = IpNode(parent: Option<nat>, parentId: int, id: int, ip: nat, metric: seq<nat>, children: seq<nat>)

  type Nodes = seq<IpNode>

  type Path = seq<nat>

  // ----- shape ----------------------------------------------------------------------

  ghost predicate Linked(t: Nodes) {
    && |t| > 0 && t[0].parent == None
    && (forall i :: 0 < i < |t| ==> t[i].parent.Some? && t[i].parent.value < i)
  }

  /** The children of node `i` are exactly the nodes with parent `i`, in order of creation. */
  ghost predicate ChildList(t: Nodes, i: nat)
    requires i < |t|
  {
    && (forall a :: 0 <= a < |t[i].children| ==> i < t[i].children[a] < |t| && t[t[i].children[a]].parent == Some(i))
    && (forall a, b :: 0 <= a < b < |t[i].children| ==> t[i].children[a] < t[i].children[b])
    && (forall j :: 0 < j < |t| && t[j].parent == Some(i) ==> j in t[i].children)
  }

  ghost predicate SameNameSiblings(t: Nodes, i: nat, j: nat)
    requires i < |t| && j < |t|
  {
    t[i].parent == t[j].parent && t[i].ip == t[j].ip
  }

  /** A parent link and a child link per node, siblings with distinct addresses, and the parent's
      identifier in every child. */
  ghost predicate WellFormed(t: Nodes) {
    && Linked(t)
    && (forall i :: 0 <= i < |t| ==> ChildList(t, i))
    && (forall i, j :: 0 < i < |t| && 0 < j < |t| && SameNameSiblings(t, i, j) ==> i == j)
    && (forall i {:trigger t[i].parentId} :: 0 < i < |t| ==> t[i].parentId == t[t[i].parent.value].id)
  }

  lemma KidIsLater(t: Nodes, i: nat, a: nat)
    requires WellFormed(t) && i < |t| && a < |t[i].children|
    ensures i < t[i].children[a] < |t|
  {
    assert ChildList(t, i);
  }

  function Abs(x: int): nat { if x < 0 then -x else x }

  /** Identifiers differ, even up to sign; they are positive multiples handed out so far. */
  ghost predicate DistinctIds(t: Nodes, last: nat) {
    && (forall i :: 0 <= i < |t| ==> 0 < Abs(t[i].id) <= last)
    && (forall i, j :: 0 <= i < j < |t| ==> Abs(t[i].id) < Abs(t[j].id))
  }

  // ----- meaning --------------------------------------------------------------------

  /** The addresses from the root, which has none, to node `i` */
  ghost function PathTo(t: Nodes, i: nat): Path
    requires Linked(t) && i < |t|
  {
    if i == 0 then [] else PathTo(t, t[i].parent.value) + [t[i].ip]
  }

  ghost function PathsBelow(t: Nodes, k: nat): set<Path>
    requires Linked(t) && k <= |t|
  {
    set i | 0 <= i < k :: PathTo(t, i)
  }

  ghost function Paths(t: Nodes): set<Path>
    requires Linked(t)
  {
    PathsBelow(t, |t|)
  }

  /** No two nodes stand for the same path. */
  lemma {:induction false} PathIsName(t: Nodes, i: nat, j: nat)
    requires WellFormed(t) && i < |t| && j < |t| && PathTo(t, i) == PathTo(t, j)
    ensures i == j
    decreases i
  {
    if i > 0 && j > 0 {
      var p, q := t[i].parent.value, t[j].parent.value;
      var pi, pj := PathTo(t, i), PathTo(t, j);
      assert pi[..|pi| - 1] == PathTo(t, p) && pj[..|pj| - 1] == PathTo(t, q);
      assert pi[|pi| - 1] == t[i].ip && pj[|pj| - 1] == t[j].ip;
      PathIsName(t, p, q);
      assert SameNameSiblings(t, i, j);
    }
  }

  lemma OneBelow(t: Nodes, k: nat)
    requires WellFormed(t) && k < |t|
    ensures PathsBelow(t, k + 1) == PathsBelow(t, k) + {PathTo(t, k)}
    ensures PathTo(t, k) !in PathsBelow(t, k)
  {
    forall i | 0 <= i < k ensures PathTo(t, i) != PathTo(t, k) {
      if PathTo(t, i) == PathTo(t, k) {
        PathIsName(t, i, k);
      }
    }
  }

  lemma OneMore(paths: set<Path>, path: Path)
    requires path !in paths
    ensures |paths + {path}| == |paths| + 1
  {
  }

  lemma {:induction false} CountBelow(t: Nodes, k: nat)
    requires WellFormed(t) && k <= |t|
    ensures |PathsBelow(t, k)| == k
  {
    if k > 0 {
      CountBelow(t, k - 1);
      OneBelow(t, k - 1);
      OneMore(PathsBelow(t, k - 1), PathTo(t, k - 1));
    }
  }

  /** There are as many nodes as paths. */
  lemma CountPaths(t: Nodes)
    requires WellFormed(t)
    ensures |t| == |Paths(t)|
  {
    CountBelow(t, |t|);
  }

  // ----- one more node --------------------------------------------------------------

  /** `constructIPNodeFromIP` under node `p` */
  function Grown(t: Nodes, p: nat, ip: nat, id: int, metrics: nat): Nodes
    requires p < |t|
  {
    t[p := t[p].(children := t[p].children + [|t|])] + [IpNode(Some(p), t[p].id, id, ip, seq(metrics, _ => 0), [])]
  }

  /** No child of `p` has address `ip`. */
  ghost predicate Lacks(t: Nodes, p: nat, ip: nat)
    requires p < |t|
  {
    forall j :: 0 < j < |t| && t[j].parent == Some(p) ==> t[j].ip != ip
  }

  lemma GrownChildList(t: Nodes, p: nat, ip: nat, id: int, metrics: nat, i: nat)
    requires WellFormed(t) && p < |t| && i <= |t|
    ensures ChildList(Grown(t, p, ip, id, metrics), i)
  {
    var t' := Grown(t, p, ip, id, metrics);
    var n := |t|;
    assert forall j :: 0 <= j < n ==> t'[j].parent == t[j].parent;
    if i < n {
      assert ChildList(t, i);
      if i == p {
        assert t'[i].children == t[i].children + [n];
        forall j | 0 < j < n + 1 && t'[j].parent == Some(i) ensures j in t'[i].children {
          if j == n {
            assert t'[i].children[|t[i].children|] == n;
          }
        }
      }
    } else {
      forall j | 0 < j < n + 1 ensures t'[j].parent != Some(n) {
        assert j < n ==> t[j].parent.value < j;
      }
    }
  }

  lemma GrownSiblings(t: Nodes, p: nat, ip: nat, id: int, metrics: nat)
    requires WellFormed(t) && p < |t| && Lacks(t, p, ip)
    ensures var t' := Grown(t, p, ip, id, metrics);
            forall i, j :: 0 < i < |t'| && 0 < j < |t'| && SameNameSiblings(t', i, j) ==> i == j
  {
    var t' := Grown(t, p, ip, id, metrics);
    forall i, j | 0 < i < |t'| && 0 < j < |t'| && SameNameSiblings(t', i, j) ensures i == j {
      if i < |t| && j < |t| {
        assert SameNameSiblings(t, i, j);
      }
    }
  }

  lemma GrownLinks(t: Nodes, p: nat, ip: nat, id: int, metrics: nat)
    requires WellFormed(t) && p < |t| && Lacks(t, p, ip)
    ensures WellFormed(Grown(t, p, ip, id, metrics))
  {
    var t' := Grown(t, p, ip, id, metrics);
    forall i | 0 <= i < |t'| ensures ChildList(t', i) {
      GrownChildList(t, p, ip, id, metrics, i);
    }
    GrownSiblings(t, p, ip, id, metrics);
  }

  lemma GrownIds(t: Nodes, p: nat, ip: nat, id: nat, metrics: nat, last: nat)
    requires p < |t| && DistinctIds(t, last) && last < id
    ensures DistinctIds(Grown(t, p, ip, id, metrics), id)
    ensures HasMetrics(t, metrics) ==> HasMetrics(Grown(t, p, ip, id, metrics), metrics)
  {
    var t' := Grown(t, p, ip, id, metrics);
    assert forall i :: 0 <= i < |t| ==> t'[i].id == t[i].id && t'[i].metric == t[i].metric;
  }

  lemma {:induction false} GrownPath(t: Nodes, p: nat, ip: nat, id: int, metrics: nat, i: nat)
    requires WellFormed(t) && p < |t| && Lacks(t, p, ip) && i < |t|
    ensures Linked(Grown(t, p, ip, id, metrics)) && PathTo(Grown(t, p, ip, id, metrics), i) == PathTo(t, i)
  {
    GrownLinks(t, p, ip, id, metrics);
    if i > 0 {
      GrownPath(t, p, ip, id, metrics, t[i].parent.value);
    }
  }

  /** The new node stands for one more path. */
  lemma GrownPaths(t: Nodes, p: nat, ip: nat, id: int, metrics: nat)
    requires WellFormed(t) && p < |t| && Lacks(t, p, ip)
    ensures WellFormed(Grown(t, p, ip, id, metrics))
    ensures PathTo(Grown(t, p, ip, id, metrics), |t|) == PathTo(t, p) + [ip]
    ensures Paths(Grown(t, p, ip, id, metrics)) == Paths(t) + {PathTo(t, p) + [ip]}
  {
    var t' := Grown(t, p, ip, id, metrics);
    GrownLinks(t, p, ip, id, metrics);
    forall i | 0 <= i < |t| ensures PathTo(t', i) == PathTo(t, i) {
      GrownPath(t, p, ip, id, metrics, i);
    }
    assert PathTo(t', |t|) == PathTo(t', p) + [ip];
    forall x ensures x in Paths(t') <==> x in Paths(t) || x == PathTo(t, p) + [ip] {
      if x in Paths(t') {
        var i :| 0 <= i < |t'| && PathTo(t', i) == x;
        assert i < |t| ==> PathTo(t, i) in Paths(t);
      }
      if x in Paths(t) {
        var i :| 0 <= i < |t| && PathTo(t, i) == x;
        assert PathTo(t', i) in Paths(t');
      }
      assert PathTo(t', |t|) in Paths(t');
    }
  }

  // ----- metrics --------------------------------------------------------------------

  ghost predicate HasMetrics(t: Nodes, metrics: nat) {
    forall i :: 0 <= i < |t| ==> |t[i].metric| == metrics
  }

  /** Value `k` of the metrics of the node that stands for path `x`; zero if there is none. */
  ghost function MetricOf(t: Nodes, metrics: nat, x: Path, k: nat): nat
    requires Linked(t) && HasMetrics(t, metrics) && k < metrics
  {
    if x in Paths(t) then
      var i :| 0 <= i < |t| && PathTo(t, i) == x;
      t[i].metric[k]
    else 0
  }

  lemma MetricIs(t: Nodes, metrics: nat, i: nat, k: nat)
    requires WellFormed(t) && HasMetrics(t, metrics) && k < metrics && i < |t|
    ensures PathTo(t, i) in Paths(t) && MetricOf(t, metrics, PathTo(t, i), k) == t[i].metric[k]
  {
    var j :| 0 <= j < |t| && PathTo(t, j) == PathTo(t, i) && MetricOf(t, metrics, PathTo(t, i), k) == t[j].metric[k];
    PathIsName(t, i, j);
  }

  /** The sum of value `k` over the first `n` nodes */
  ghost function TotalMetric(t: Nodes, metrics: nat, k: nat, n: nat): nat
    requires HasMetrics(t, metrics) && k < metrics && n <= |t|
  {
    if n == 0 then 0 else TotalMetric(t, metrics, k, n - 1) + t[n - 1].metric[k]
  }

  /** Adds a list of values, which may be shorter, to a node's metrics. */
  function Plus(metric: seq<nat>, ms: seq<nat>): seq<nat> {
    seq(|metric|, k requires 0 <= k < |metric| => metric[k] + if k < |ms| then ms[k] else 0)
  }

  function Charge(t: Nodes, n: nat, ms: seq<nat>): Nodes
    requires n < |t|
  {
    t[n := t[n].(metric := Plus(t[n].metric, ms))]
  }

  function ValueAt(ms: seq<nat>, k: nat): nat { if k < |ms| then ms[k] else 0 }

  lemma ChargeLinks(t: Nodes, n: nat, ms: seq<nat>)
    requires WellFormed(t) && n < |t|
    ensures WellFormed(Charge(t, n, ms))
  {
    var t' := Charge(t, n, ms);
    forall i | 0 <= i < |t'| ensures ChildList(t', i) {
      assert ChildList(t, i);
      assert t'[i].children == t[i].children;
    }
    forall i, j | 0 < i < |t'| && 0 < j < |t'| && SameNameSiblings(t', i, j) ensures i == j {
      assert SameNameSiblings(t, i, j);
    }
  }

  /** Charging a node changes no path. */
  lemma ChargeShape(t: Nodes, metrics: nat, n: nat, ms: seq<nat>)
    requires WellFormed(t) && HasMetrics(t, metrics) && n < |t|
    ensures WellFormed(Charge(t, n, ms)) && HasMetrics(Charge(t, n, ms), metrics)
    ensures forall i :: 0 <= i < |t| ==> PathTo(Charge(t, n, ms), i) == PathTo(t, i)
    ensures Paths(Charge(t, n, ms)) == Paths(t)
  {
    ChargeLinks(t, n, ms);
    forall i | 0 <= i < |t| ensures PathTo(Charge(t, n, ms), i) == PathTo(t, i) {
      SameLinksSamePath(t, Charge(t, n, ms), i);
    }
    SamePaths(t, Charge(t, n, ms));
  }

  /** Paths depend on parents and addresses only. */
  lemma {:induction false} SameLinksSamePath(t: Nodes, t': Nodes, i: nat)
    requires Linked(t) && Linked(t') && i < |t| <= |t'|
    requires forall j :: 0 <= j < |t| ==> t'[j].parent == t[j].parent && t'[j].ip == t[j].ip
    ensures PathTo(t', i) == PathTo(t, i)
  {
    if i > 0 {
      SameLinksSamePath(t, t', t[i].parent.value);
    }
  }

  lemma SamePaths(t: Nodes, t': Nodes)
    requires Linked(t) && Linked(t') && |t| == |t'|
    requires forall i :: 0 <= i < |t| ==> PathTo(t', i) == PathTo(t, i)
    ensures Paths(t') == Paths(t)
  {
    forall x ensures x in Paths(t') <==> x in Paths(t) {
      if x in Paths(t') {
        var i :| 0 <= i < |t'| && PathTo(t', i) == x;
        assert PathTo(t, i) in Paths(t);
      }
      if x in Paths(t) {
        var i :| 0 <= i < |t| && PathTo(t, i) == x;
        assert PathTo(t', i) in Paths(t');
      }
    }
  }

  lemma ChargeMetric(t: Nodes, metrics: nat, n: nat, ms: seq<nat>, x: Path, k: nat)
    requires WellFormed(t) && HasMetrics(t, metrics) && n < |t| && k < metrics
    requires WellFormed(Charge(t, n, ms)) && HasMetrics(Charge(t, n, ms), metrics)
    ensures MetricOf(Charge(t, n, ms), metrics, x, k)
         == MetricOf(t, metrics, x, k) + if x == PathTo(t, n) then ValueAt(ms, k) else 0
  {
    var t' := Charge(t, n, ms);
    ChargeShape(t, metrics, n, ms);
    if x in Paths(t) {
      var i :| 0 <= i < |t| && PathTo(t, i) == x;
      MetricIs(t, metrics, i, k);
      MetricIs(t', metrics, i, k);
      if x == PathTo(t, n) {
        PathIsName(t, i, n);
      }
    } else {
      MetricIs(t, metrics, n, k);
    }
  }

  lemma {:induction false} ChargeTotal(t: Nodes, metrics: nat, n: nat, ms: seq<nat>, k: nat, upto: nat)
    requires HasMetrics(t, metrics) && n < |t| && k < metrics && upto <= |t|
    requires HasMetrics(Charge(t, n, ms), metrics)
    ensures TotalMetric(Charge(t, n, ms), metrics, k, upto)
         == TotalMetric(t, metrics, k, upto) + if n < upto then ValueAt(ms, k) else 0
  {
    if upto > 0 {
      ChargeTotal(t, metrics, n, ms, k, upto - 1);
    }
  }

  /** A new node brings no metric. */
  lemma GrownMetric(t: Nodes, metrics: nat, p: nat, ip: nat, id: int, x: Path, k: nat)
    requires WellFormed(t) && HasMetrics(t, metrics) && k < metrics && p < |t| && Lacks(t, p, ip)
    ensures WellFormed(Grown(t, p, ip, id, metrics)) && HasMetrics(Grown(t, p, ip, id, metrics), metrics)
    ensures MetricOf(Grown(t, p, ip, id, metrics), metrics, x, k) == MetricOf(t, metrics, x, k)
  {
    var t' := Grown(t, p, ip, id, metrics);
    GrownPaths(t, p, ip, id, metrics);
    if x in Paths(t) {
      var i :| 0 <= i < |t| && PathTo(t, i) == x;
      GrownPath(t, p, ip, id, metrics, i);
      MetricIs(t, metrics, i, k);
      MetricIs(t', metrics, i, k);
    } else if x in Paths(t') {
      MetricIs(t', metrics, |t|, k);
    }
  }

  lemma {:induction false} GrownTotal(t: Nodes, metrics: nat, p: nat, ip: nat, id: int, k: nat, upto: nat)
    requires HasMetrics(t, metrics) && k < metrics && p < |t| && upto <= |t|
    ensures HasMetrics(Grown(t, p, ip, id, metrics), metrics)
    ensures TotalMetric(Grown(t, p, ip, id, metrics), metrics, k, upto) == TotalMetric(t, metrics, k, upto)
    ensures upto == |t| ==> TotalMetric(Grown(t, p, ip, id, metrics), metrics, k, upto + 1) == TotalMetric(t, metrics, k, upto)
  {
    if upto > 0 {
      GrownTotal(t, metrics, p, ip, id, k, upto - 1);
    }
  }

  // ----- the exporter's structure ---------------------------------------------------

  /** `global_fmt_ip_node_start`: identifiers are taken in steps of two, possibly by other threads
      in between. */
  class IdSource {
    var last: nat

    /** `get_fmt_ip_node_new_id` */
    method NewId() returns (id: nat)
      modifies this
      ensures id == last && old(last) + 2 <= id && id % 2 == old(last) % 2
    {
      var others :| 0 <= others;
      last := last + 2 * others;
      last := last + 2;
      id := last;
    }
  }

  /** The identifier as the source keeps it, in 32 bits with a sign */
  function Wrap32(x: nat): int {
    var r := x % 0x1_0000_0000;
    if r < 0x8000_0000 then r else r - 0x1_0000_0000
  }

  /** The counter starts at zero and nothing checks for its overflow: the first `n` identifiers are the
      numbers they should be exactly if there are fewer than 2^30. */
  lemma IdsFitExactlyIf(n: nat)
    ensures (forall i: nat :: i <= n ==> Wrap32(2 * i) == 2 * i) <==> n < 0x4000_0000
  {
    if n >= 0x4000_0000 {
      assert Wrap32(2 * 0x4000_0000) < 0;
    }
  }

  /** `nodeCount` is the counter that is passed along; it had the value `before` when it was put to
      work on this trie as an empty one. */
  class Trie {
    const metrics: nat
    var nodes: Nodes
    var nodeCount: nat
    ghost var before: int

    ghost predicate Valid(ids: IdSource)
      reads this, ids
    {
      WellFormed(nodes) && HasMetrics(nodes, metrics) && DistinctIds(nodes, ids.last) && nodeCount == before + |nodes|
    }

    /** The root, which has no address; `count` is the counter so far. */
    constructor (metrics: nat, count: nat, ids: IdSource)
      modifies ids
      ensures Valid(ids) && this.metrics == metrics && before == count && old(ids.last) < ids.last
      ensures |nodes| == 1 && nodes[0].id > 0 && nodes[0].children == [] && forall k :: 0 <= k < metrics ==> nodes[0].metric[k] == 0
    {
      this.metrics := metrics;
      var id := ids.NewId();
      nodes := [IpNode(None, 0, id, 0, seq(metrics, _ => 0), [])];
      nodeCount, before := count + 1, count;
    }

    /** The counter has moved on since it was last used here. */
    method Resume(count: nat, ghost ids: IdSource)
      requires Valid(ids)
      modifies `nodeCount, `before
      ensures Valid(ids) && nodeCount == count && before == count - |nodes|
    {
      nodeCount, before := count, count - |nodes|;
    }

    /** `findSameIP` and `findSameIPbyIP` */
    method FindSameIp(cur: nat, ip: nat) returns (r: Option<nat>)
      requires WellFormed(nodes) && cur < |nodes|
      ensures r.Some? ==> 0 < r.value < |nodes| && nodes[r.value].parent == Some(cur) && nodes[r.value].ip == ip
      ensures r.None? ==> Lacks(nodes, cur, ip)
    {
      var i := 0;
      assert ChildList(nodes, cur);
      while i < |nodes[cur].children|
        invariant i <= |nodes[cur].children|
        invariant forall a :: 0 <= a < i ==> nodes[nodes[cur].children[a]].ip != ip
      {
        if nodes[nodes[cur].children[i]].ip == ip {
          return Some(nodes[cur].children[i]);
        }
        i := i + 1;
      }
      return None;
    }

    /** `constructIPNodeFromIP` below a node */
    method ConstructIpNode(cur: nat, ip: nat, ids: IdSource) returns (node: nat)
      requires Valid(ids) && cur < |nodes| && Lacks(nodes, cur, ip)
      modifies `nodes, `nodeCount, ids
      ensures Valid(ids) && old(ids.last) < ids.last
      ensures node == |old(nodes)| && nodes == Grown(old(nodes), cur, ip, ids.last, metrics)
    {
      var id := ids.NewId();
      GrownLinks(nodes, cur, ip, id, metrics);
      GrownIds(nodes, cur, ip, id, metrics, old(ids.last));
      node := |nodes|;
      nodes := nodes + [IpNode(Some(cur), nodes[cur].id, id, ip, seq(metrics, _ => 0), [])];
      nodes := nodes[cur := nodes[cur].(children := nodes[cur].children + [node])];
      assert nodes == Grown(old(nodes), cur, ip, id, metrics);
      nodeCount := nodeCount + 1;
    }
  }
}

/** Selected call paths with metrics, inserted one by one into the exported trie, and the marking
    of its leaves. */
module HpcPaths {
  import opened Options
  import opened CallingContext
  import opened CallPaths
  import opened HpcTrie

  // ----- walking down ---------------------------------------------------------------

  /** The paths from `p` along `q`, both ends included */
  ghost function Along(p: Path, q: Path): set<Path> {
    set j | 0 <= j <= |q| :: p + q[..j]
  }

  lemma AlongIs(p: Path, q: Path, x: Path)
    ensures x in Along(p, q) <==> p <= x <= p + q
  {
    if x in Along(p, q) {
      var j :| 0 <= j <= |q| && x == p + q[..j];
      assert q == q[..j] + q[j..];
    }
    if p <= x <= p + q {
      var j := |x| - |p|;
      assert x == p + q[..j];
      assert 0 <= j <= |q|;
    }
  }

  lemma AlongTwo(p: Path, q: Path, r: Path)
    ensures Along(p, q + r) == Along(p, q) + Along(p + q, r)
  {
    assert (p + q) + r == p + (q + r);
    forall x ensures x in Along(p, q + r) <==> x in Along(p, q) + Along(p + q, r) {
      AlongIs(p, q + r, x);
      AlongIs(p, q, x);
      AlongIs(p + q, r, x);
      PrefixSplit(p, q, r, x);
    }
  }

  lemma PrefixSplit(p: Path, q: Path, r: Path, x: Path)
    ensures p <= x <= (p + q) + r <==> p <= x <= p + q || p + q <= x <= (p + q) + r
  {
  }

  /** Nodes keep their identifiers, and do not lose all their children; new nodes have positive
      identifiers. */
  ghost predicate KeepsIds(t: Nodes, t': Nodes) {
    && |t| <= |t'|
    && (forall i :: 0 <= i < |t| ==> t'[i].id == t[i].id && (t'[i].children == [] ==> t[i].children == []))
    && (forall i :: |t| <= i < |t'| ==> t'[i].id > 0)
  }

  ghost predicate SameMetrics(t: Nodes, t': Nodes, metrics: nat)
    requires Linked(t) && Linked(t') && HasMetrics(t, metrics) && HasMetrics(t', metrics)
  {
    && (forall x, k: nat :: k < metrics ==> MetricOf(t', metrics, x, k) == MetricOf(t, metrics, x, k))
    && (forall k: nat :: k < metrics ==> TotalMetric(t', metrics, k, |t'|) == TotalMetric(t, metrics, k, |t|))
  }

  /** Going down from node `cur` along `q` leads to `cur'`; nodes on the way were found or made. */
  ghost predicate Reaches(t: Nodes, cur: nat, t': Nodes, cur': nat, q: Path) {
    && WellFormed(t) && WellFormed(t') && cur < |t| && cur' < |t'|
    && PathTo(t', cur') == PathTo(t, cur) + q
    && Paths(t') == Paths(t) + Along(PathTo(t, cur), q)
  }

  /** ... and nothing else changed. */
  ghost predicate Walked(t: Nodes, cur: nat, t': Nodes, cur': nat, q: Path, metrics: nat) {
    && Reaches(t, cur, t', cur', q)
    && HasMetrics(t, metrics) && HasMetrics(t', metrics) && SameMetrics(t, t', metrics)
    && KeepsIds(t, t')
  }

  lemma WalkedNowhere(t: Nodes, cur: nat, metrics: nat)
    requires WellFormed(t) && HasMetrics(t, metrics) && cur < |t|
    ensures Walked(t, cur, t, cur, [], metrics)
  {
    assert PathTo(t, cur) + [] == PathTo(t, cur);
    assert PathTo(t, cur) in Paths(t);
    forall x ensures x in Along(PathTo(t, cur), []) <==> x == PathTo(t, cur) {
      assert PathTo(t, cur) == PathTo(t, cur) + [][..0];
    }
  }

  lemma KeepsTwice(t: Nodes, t1: Nodes, t2: Nodes)
    requires KeepsIds(t, t1) && KeepsIds(t1, t2)
    ensures KeepsIds(t, t2)
  {
  }

  lemma SameMetricsTwice(t: Nodes, t1: Nodes, t2: Nodes, metrics: nat)
    requires Linked(t) && Linked(t1) && Linked(t2)
    requires HasMetrics(t, metrics) && HasMetrics(t1, metrics) && HasMetrics(t2, metrics)
    requires SameMetrics(t, t1, metrics) && SameMetrics(t1, t2, metrics)
    ensures SameMetrics(t, t2, metrics)
  {
  }

  lemma ReachesTwice(t: Nodes, c: nat, t1: Nodes, c1: nat, q: Path, t2: Nodes, c2: nat, r: Path)
    requires Reaches(t, c, t1, c1, q) && Reaches(t1, c1, t2, c2, r)
    ensures Reaches(t, c, t2, c2, q + r)
  {
    var p := PathTo(t, c);
    AlongTwo(p, q, r);
    assert (p + q) + r == p + (q + r);
  }

  lemma WalkedTwice(t: Nodes, c: nat, t1: Nodes, c1: nat, q: Path, t2: Nodes, c2: nat, r: Path, metrics: nat)
    requires Walked(t, c, t1, c1, q, metrics) && Walked(t1, c1, t2, c2, r, metrics)
    ensures Walked(t, c, t2, c2, q + r, metrics)
  {
    ReachesTwice(t, c, t1, c1, q, t2, c2, r);
    KeepsTwice(t, t1, t2);
    SameMetricsTwice(t, t1, t2, metrics);
  }

  /** The two ways down by one address */
  lemma WalkedFound(t: Nodes, cur: nat, child: nat, metrics: nat)
    requires WellFormed(t) && HasMetrics(t, metrics) && cur < |t| && 0 < child < |t| && t[child].parent == Some(cur)
    ensures Walked(t, cur, t, child, [t[child].ip], metrics)
  {
    assert PathTo(t, child) == PathTo(t, cur) + [t[child].ip];
    assert PathTo(t, child) in Paths(t) && PathTo(t, cur) in Paths(t);
    AlongOne(PathTo(t, cur), t[child].ip);
  }

  lemma AlongOne(p: Path, ip: nat)
    ensures Along(p, [ip]) == {p, p + [ip]}
  {
    forall x ensures x in Along(p, [ip]) <==> x == p || x == p + [ip] {
      assert p + [ip][..0] == p && p + [ip][..1] == p + [ip];
      if x == p || x == p + [ip] {
        var j := if x == p then 0 else 1;
        assert 0 <= j <= |[ip]| && x == p + [ip][..j];
      }
    }
  }

  lemma WalkedGrown(t: Nodes, cur: nat, ip: nat, id: nat, metrics: nat)
    requires WellFormed(t) && HasMetrics(t, metrics) && cur < |t| && Lacks(t, cur, ip) && id > 0
    ensures Walked(t, cur, Grown(t, cur, ip, id, metrics), |t|, [ip], metrics)
  {
    var t' := Grown(t, cur, ip, id, metrics);
    GrownPaths(t, cur, ip, id, metrics);
    AlongOne(PathTo(t, cur), ip);
    assert PathTo(t, cur) in Paths(t);
    GrownSameMetrics(t, cur, ip, id, metrics);
    assert forall i :: 0 <= i < |t| ==> t'[i].id == t[i].id && (t'[i].children == [] ==> t[i].children == []);
  }

  lemma GrownSameMetrics(t: Nodes, cur: nat, ip: nat, id: nat, metrics: nat)
    requires WellFormed(t) && HasMetrics(t, metrics) && cur < |t| && Lacks(t, cur, ip)
    ensures WellFormed(Grown(t, cur, ip, id, metrics)) && HasMetrics(Grown(t, cur, ip, id, metrics), metrics)
    ensures SameMetrics(t, Grown(t, cur, ip, id, metrics), metrics)
  {
    var t' := Grown(t, cur, ip, id, metrics);
    GrownLinks(t, cur, ip, id, metrics);
    assert HasMetrics(t', metrics);
    forall x, k: nat | k < metrics ensures MetricOf(t', metrics, x, k) == MetricOf(t, metrics, x, k) {
      GrownMetric(t, metrics, cur, ip, id, x, k);
    }
    forall k: nat | k < metrics ensures TotalMetric(t', metrics, k, |t'|) == TotalMetric(t, metrics, k, |t|) {
      GrownTotal(t, metrics, cur, ip, id, k, |t|);
    }
  }

  // ----- inputs ---------------------------------------------------------------------

  /** `HPCRunCCT_t`: context handles whose call paths are put together, and values to add */
  datatype RunNode = RunNode(hndls: seq<nat>, metrics: seq<nat>)

  function Reverse(s: Path): (r: Path)
    ensures |r| == |s|
  {
    if s == [] then [] else Reverse(s[1..]) + [s[0]]
  }

  /** Every handle before the first zero stands for a context; the process exits otherwise. */
  ghost predicate Usable(prog: seq<Shadow>, c: Cct, hndls: seq<nat>) {
    hndls != [] && hndls[0] != 0 ==> IsContext(prog, c, hndls[0]) && Usable(prog, c, hndls[1..])
  }

  /** The path a list of handles stands for: the call paths of its handles, each from the root
      inwards, up to the first zero. */
  ghost function RunPath(prog: seq<Shadow>, c: Cct, hndls: seq<nat>): Path
    requires Usable(prog, c, hndls)
  {
    if hndls == [] || hndls[0] == 0 then []
    else Reverse(ContextIps(prog, c, hndls[0])) + RunPath(prog, c, hndls[1..])
  }

  /** Up to which handle a list counts: the first zero ends it. */
  ghost predicate Counts(hndls: seq<nat>, i: nat) {
    i < |hndls| && forall j :: 0 <= j <= i ==> hndls[j] != 0
  }

  lemma {:induction false} UsableIs(prog: seq<Shadow>, c: Cct, hndls: seq<nat>)
    ensures Usable(prog, c, hndls) <==> forall i :: 0 <= i < |hndls| && Counts(hndls, i) ==> IsContext(prog, c, hndls[i])
  {
    if hndls != [] && hndls[0] != 0 {
      var rest := hndls[1..];
      UsableIs(prog, c, rest);
      assert Counts(hndls, 0);
      forall i | 0 <= i < |rest| ensures Counts(rest, i) <==> Counts(hndls, i + 1) {
        if Counts(rest, i) {
          forall j | 0 <= j <= i + 1 ensures hndls[j] != 0 {
            if j > 0 { assert rest[j - 1] == hndls[j]; }
          }
        }
        if Counts(hndls, i + 1) {
          forall j | 0 <= j <= i ensures rest[j] != 0 {
            assert hndls[j + 1] == rest[j];
          }
        }
      }
      forall i | 0 < i < |hndls| && Counts(hndls, i) && Usable(prog, c, rest) ensures IsContext(prog, c, hndls[i]) {
        assert Counts(rest, i - 1) && rest[i - 1] == hndls[i];
      }
    } else {
      assert forall i :: Counts(hndls, i) ==> hndls[0] != 0;
    }
  }

  /** The paths of lists in a row follow each other, unless the first list has a zero: what comes
      after that does not matter. */
  lemma {:induction false} PathsInARow(prog: seq<Shadow>, c: Cct, xs: seq<nat>, ys: seq<nat>)
    ensures 0 in xs ==>
              Usable(prog, c, xs + ys) == Usable(prog, c, xs)
              && (Usable(prog, c, xs) ==> RunPath(prog, c, xs + ys) == RunPath(prog, c, xs))
    ensures 0 !in xs ==>
              Usable(prog, c, xs + ys) == (Usable(prog, c, xs) && Usable(prog, c, ys))
              && (Usable(prog, c, xs + ys) ==> RunPath(prog, c, xs + ys) == RunPath(prog, c, xs) + RunPath(prog, c, ys))
  {
    if xs == [] {
      assert xs + ys == ys && [] + ys == ys;
    } else if xs[0] != 0 {
      PathsInARow(prog, c, xs[1..], ys);
      assert (xs + ys)[1..] == xs[1..] + ys;
      if Usable(prog, c, xs + ys) && 0 !in xs {
        var ips := Reverse(ContextIps(prog, c, xs[0]));
        assert ips + (RunPath(prog, c, xs[1..]) + RunPath(prog, c, ys)) == (ips + RunPath(prog, c, xs[1..])) + RunPath(prog, c, ys);
      }
    }
  }

  /** The path of one context: its addresses, outermost first. */
  lemma {:induction false} OnePath(prog: seq<Shadow>, c: Cct, h: nat)
    requires h != 0 && IsContext(prog, c, h)
    ensures Usable(prog, c, [h]) && |RunPath(prog, c, [h])| == |ContextIps(prog, c, h)|
    ensures forall i :: 0 <= i < |RunPath(prog, c, [h])| ==>
              RunPath(prog, c, [h])[i] == ContextIps(prog, c, h)[|ContextIps(prog, c, h)| - 1 - i]
  {
    ReversedAt(ContextIps(prog, c, h));
    assert [h][1..] == [];
    assert RunPath(prog, c, [h]) == Reverse(ContextIps(prog, c, h)) + [];
  }

  lemma {:induction false} ReversedAt(s: Path)
    ensures forall i :: 0 <= i < |s| ==> Reverse(s)[i] == s[|s| - 1 - i]
  {
    if s != [] {
      ReversedAt(s[1..]);
    }
  }

  /** What one inserted path with values does. */
  ghost predicate Inserted(t: Nodes, t': Nodes, path: Path, ms: seq<nat>, metrics: nat) {
    && WellFormed(t) && WellFormed(t') && HasMetrics(t, metrics) && HasMetrics(t', metrics)
    && Paths(t') == Paths(t) + Along([], path)
    && (forall x, k: nat :: k < metrics ==>
          MetricOf(t', metrics, x, k) == MetricOf(t, metrics, x, k) + if x == path then ValueAt(ms, k) else 0)
    && (forall k: nat :: k < metrics ==>
          TotalMetric(t', metrics, k, |t'|) == TotalMetric(t, metrics, k, |t|) + ValueAt(ms, k))
    && KeepsIds(t, t')
  }

  lemma WalkedAndCharged(t: Nodes, t': Nodes, cur: nat, path: Path, ms: seq<nat>, metrics: nat)
    requires Walked(t, 0, t', cur, path, metrics)
    ensures Inserted(t, Charge(t', cur, ms), path, ms, metrics)
  {
    assert PathTo(t, 0) == [] && [] + path == path;
    var t2 := Charge(t', cur, ms);
    ChargeShape(t', metrics, cur, ms);
    forall x, k: nat | k < metrics
      ensures MetricOf(t2, metrics, x, k) == MetricOf(t, metrics, x, k) + if x == path then ValueAt(ms, k) else 0
    {
      ChargeMetric(t', metrics, cur, ms, x, k);
    }
    forall k: nat | k < metrics
      ensures TotalMetric(t2, metrics, k, |t2|) == TotalMetric(t, metrics, k, |t|) + ValueAt(ms, k)
    {
      ChargeTotal(t', metrics, cur, ms, k, |t'|);
    }
  }

  // ----- the insertion --------------------------------------------------------------

  /** The child of `cur` with address `ip`, made if there is none */
  method StepDown(trie: Trie, cur: nat, ip: nat, ids: IdSource) returns (next: nat)
    requires trie.Valid(ids) && cur < |trie.nodes|
    modifies trie`nodes, trie`nodeCount, ids
    ensures trie.Valid(ids)
    ensures Walked(old(trie.nodes), cur, trie.nodes, next, [ip], trie.metrics)
  {
    var found := trie.FindSameIp(cur, ip);
    if found.Some? {
      next := found.value;
      WalkedFound(trie.nodes, cur, next, trie.metrics);
    } else {
      next := trie.ConstructIpNode(cur, ip, ids);
      WalkedGrown(old(trie.nodes), cur, ip, ids.last, trie.metrics);
    }
  }

  lemma {:induction false} ReverseLast(s: Path, i: nat)
    requires i < |s|
    ensures Reverse(s[i..]) == Reverse(s[i + 1..]) + [s[i]]
  {
    assert s[i..][1..] == s[i + 1..];
  }

  /** One address further: entry `i` of the vector, which is read backwards */
  method WalkStep(trie: Trie, ghost t: Nodes, ghost cur: nat, at: nat, ips: Path, i: nat, ids: IdSource) returns (last: nat)
    requires trie.Valid(ids) && i < |ips|
    requires Walked(t, cur, trie.nodes, at, Reverse(ips[i + 1..]), trie.metrics)
    modifies trie`nodes, trie`nodeCount, ids
    ensures trie.Valid(ids)
    ensures Walked(t, cur, trie.nodes, last, Reverse(ips[i..]), trie.metrics)
  {
    ghost var t1 := trie.nodes;
    last := StepDown(trie, at, ips[i], ids);
    WalkedTwice(t, cur, t1, at, Reverse(ips[i + 1..]), trie.nodes, last, [ips[i]], trie.metrics);
    ReverseLast(ips, i);
  }

  /** From `cur` along one call path, outermost caller first */
  method WalkContext(trie: Trie, cur: nat, ips: Path, ids: IdSource) returns (last: nat)
    requires trie.Valid(ids) && cur < |trie.nodes|
    modifies trie`nodes, trie`nodeCount, ids
    ensures trie.Valid(ids)
    ensures Walked(old(trie.nodes), cur, trie.nodes, last, Reverse(ips), trie.metrics)
  {
    ghost var t := trie.nodes;
    last := cur;
    var i := |ips|;
    WalkedNowhere(t, cur, trie.metrics);
    while i > 0
      invariant 0 <= i <= |ips|
      invariant trie.Valid(ids)
      invariant Walked(t, cur, trie.nodes, last, Reverse(ips[i..]), trie.metrics)
    {
      i := i - 1;
      last := WalkStep(trie, t, cur, last, ips, i, ids);
    }
    assert ips[0..] == ips;
  }

  /** `path` is what the first `i` handles stand for. */
  ghost predicate PathSoFar(prog: seq<Shadow>, c: Cct, hndls: seq<nat>, i: nat, path: Path)
    requires i <= |hndls|
  {
    && Usable(prog, c, hndls) == Usable(prog, c, hndls[i..])
    && (Usable(prog, c, hndls) ==> RunPath(prog, c, hndls) == path + RunPath(prog, c, hndls[i..]))
  }

  lemma PathNext(prog: seq<Shadow>, c: Cct, hndls: seq<nat>, i: nat, path: Path)
    requires i < |hndls| && hndls[i] != 0 && PathSoFar(prog, c, hndls, i, path)
    ensures !IsContext(prog, c, hndls[i]) ==> !Usable(prog, c, hndls)
    ensures IsContext(prog, c, hndls[i]) ==> PathSoFar(prog, c, hndls, i + 1, path + Reverse(ContextIps(prog, c, hndls[i])))
  {
    assert hndls[i..][1..] == hndls[i + 1..];
    if Usable(prog, c, hndls) {
      var ips := Reverse(ContextIps(prog, c, hndls[i]));
      assert path + (ips + RunPath(prog, c, hndls[i + 1..])) == (path + ips) + RunPath(prog, c, hndls[i + 1..]);
    }
  }

  lemma PathEnd(prog: seq<Shadow>, c: Cct, hndls: seq<nat>, i: nat, path: Path)
    requires i <= |hndls| && (i < |hndls| ==> hndls[i] == 0) && PathSoFar(prog, c, hndls, i, path)
    ensures Usable(prog, c, hndls) && RunPath(prog, c, hndls) == path
  {
    assert path + [] == path;
  }

  /** Down from the root along the call paths of the handles; false when the process ends. */
  method WalkHandles(prog: seq<Shadow>, c: Cct, trie: Trie, hndls: seq<nat>, ids: IdSource) returns (ok: bool, cur: nat)
    requires CctInv(prog, c) && trie.Valid(ids)
    modifies trie`nodes, trie`nodeCount, ids
    ensures ok == Usable(prog, c, hndls) && (ok ==> trie.Valid(ids))
    ensures ok ==> Walked(old(trie.nodes), 0, trie.nodes, cur, RunPath(prog, c, hndls), trie.metrics)
  {
    ghost var t := trie.nodes;
    ghost var path: Path := [];
    var i := 0;
    cur := 0;
    WalkedNowhere(t, 0, trie.metrics);
    assert hndls[0..] == hndls;
    while i < |hndls|
      invariant i <= |hndls|
      invariant trie.Valid(ids)
      invariant Walked(t, 0, trie.nodes, cur, path, trie.metrics)
      invariant PathSoFar(prog, c, hndls, i, path)
    {
      if hndls[i] == 0 {
        break;
      }
      PathNext(prog, c, hndls, i, path);
      var ips := GetFullCallingIpVector(prog, c, hndls[i]);
      if !ips.Ips? {
        return false, cur;
      }
      ghost var t1, c1 := trie.nodes, cur;
      cur := WalkContext(trie, cur, ips.list, ids);
      WalkedTwice(t, 0, t1, c1, path, trie.nodes, cur, Reverse(ips.list), trie.metrics);
      path := path + Reverse(ips.list);
      i := i + 1;
    }
    PathEnd(prog, c, hndls, i, path);
    return true, cur;
  }

  /** The input names contexts, and no value for which the nodes have no room. */
  ghost predicate Acceptable(prog: seq<Shadow>, c: Cct, run: RunNode, metrics: nat) {
    Usable(prog, c, run.hndls) && (run.hndls == [] || |run.metrics| <= metrics)
  }

  /** `hpcrun_insert_path`.  An empty list is ignored, values and all; a zero handle ends the path, and
      the values go to the node reached.  False when the process ends: it exits, or memory is accessed
      that is not there. */
  method HpcrunInsertPath(prog: seq<Shadow>, c: Cct, trie: Trie, run: RunNode, ids: IdSource) returns (ok: bool)
    requires CctInv(prog, c) && trie.Valid(ids)
    modifies trie`nodes, trie`nodeCount, ids
    ensures ok == (Usable(prog, c, run.hndls) && (run.hndls == [] || |run.metrics| <= trie.metrics)) && (ok ==> trie.Valid(ids))
    ensures ok && run.hndls == [] ==> trie.nodes == old(trie.nodes)
    ensures ok && run.hndls != [] ==>
              Inserted(old(trie.nodes), trie.nodes, RunPath(prog, c, run.hndls), run.metrics, trie.metrics)
  {
    if run.hndls == [] {
      return true;
    }
    ghost var t := trie.nodes;
    var cur;
    ok, cur := WalkHandles(prog, c, trie, run.hndls, ids);
    if ok {
      WalkedAndCharged(t, trie.nodes, cur, RunPath(prog, c, run.hndls), run.metrics, trie.metrics);
      ok := AddMetrics(trie, cur, run.metrics, ids);
    }
  }

  /** False when there are more values than the node has room for. */
  method AddMetrics(trie: Trie, cur: nat, ms: seq<nat>, ghost ids: IdSource) returns (ok: bool)
    requires trie.Valid(ids) && cur < |trie.nodes|
    modifies trie`nodes
    ensures ok == (|ms| <= trie.metrics)
    ensures ok ==> trie.Valid(ids) && trie.nodes == Charge(old(trie.nodes), cur, ms)
    ensures ok ==> forall k :: 0 <= k < |ms| ==> trie.nodes[cur].metric[k] == old(trie.nodes[cur]).metric[k] + ms[k]
  {
    ghost var t := trie.nodes;
    var i := 0;
    var metric := trie.nodes[cur].metric;
    while i < |ms|
      invariant i <= |ms| && i <= |metric|
      invariant metric == Plus(t[cur].metric, ms[..i])
    {
      if i >= |metric| {
        return false;
      }
      metric := metric[i := metric[i] + ms[i]];
      i := i + 1;
    }
    assert ms[..|ms|] == ms;
    trie.nodes := trie.nodes[cur := trie.nodes[cur].(metric := metric)];
    ChargeShape(t, trie.metrics, cur, ms);
    ok := true;
  }
}

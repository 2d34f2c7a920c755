/** The exported trie as a whole: what it contains after any list of paths, and the sign that marks
    its leaves. */
module HpcBuild {
  import opened CallingContext
  import opened HpcTrie
  import opened HpcPaths

  // ----- what a list of paths should give -------------------------------------------

  datatype Entry = Entry(path: Path, ms: seq<nat>)

  /** The inputs that count: those with a non-empty list of handles. */
  ghost function Entries(prog: seq<Shadow>, c: Cct, runs: seq<RunNode>): seq<Entry>
    requires AllUsable(prog, c, runs)
  {
    if runs == [] then []
    else
      var front, run := runs[..|runs| - 1], runs[|runs| - 1];
      Entries(prog, c, front) + if run.hndls == [] then [] else [Entry(RunPath(prog, c, run.hndls), run.metrics)]
  }

  ghost predicate AllUsable(prog: seq<Shadow>, c: Cct, runs: seq<RunNode>) {
    forall i :: 0 <= i < |runs| ==> Usable(prog, c, runs[i].hndls)
  }

  /** Every prefix of an input path, the empty one in any case */
  ghost function Prefixes(es: seq<Entry>): set<Path> {
    if es == [] then {[]} else Prefixes(es[..|es| - 1]) + Along([], es[|es| - 1].path)
  }

  /** The sum of value `k` over the inputs that end at `x` */
  ghost function SumAt(es: seq<Entry>, x: Path, k: nat): nat {
    if es == [] then 0
    else SumAt(es[..|es| - 1], x, k) + if es[|es| - 1].path == x then ValueAt(es[|es| - 1].ms, k) else 0
  }

  ghost function SumAll(es: seq<Entry>, k: nat): nat {
    if es == [] then 0 else SumAll(es[..|es| - 1], k) + ValueAt(es[|es| - 1].ms, k)
  }

  /** `Prefixes` is what its name says. */
  lemma {:induction false} PrefixesAre(es: seq<Entry>, x: Path)
    ensures x in Prefixes(es) <==> x == [] || exists i :: 0 <= i < |es| && x <= es[i].path
  {
    if es != [] {
      var front, e := es[..|es| - 1], es[|es| - 1];
      PrefixesAre(front, x);
      AlongIsPrefix(e.path, x);
      if x in Prefixes(front) && x != [] {
        var i :| 0 <= i < |front| && x <= front[i].path;
        assert es[i] == front[i];
      }
      if exists i :: 0 <= i < |es| && x <= es[i].path {
        var i :| 0 <= i < |es| && x <= es[i].path;
        assert i < |front| ==> front[i] == es[i];
      }
    }
  }

  lemma AlongIsPrefix(path: Path, x: Path)
    ensures x in Along([], path) <==> x <= path
  {
    if x <= path {
      assert x == [] + path[..|x|];
      assert 0 <= |x| <= |path|;
    }
  }

  // ----- building -------------------------------------------------------------------

  /** The trie holds exactly the prefixes of the inputs, and the sums of their values. */
  ghost predicate BuiltFrom(t: Nodes, es: seq<Entry>, metrics: nat) {
    && WellFormed(t) && HasMetrics(t, metrics)
    && Paths(t) == Prefixes(es)
    && (forall x, k: nat :: k < metrics ==> MetricOf(t, metrics, x, k) == SumAt(es, x, k))
    && (forall k: nat :: k < metrics ==> TotalMetric(t, metrics, k, |t|) == SumAll(es, k))
  }

  lemma BuildNext(t: Nodes, t': Nodes, es: seq<Entry>, e: Entry, metrics: nat)
    requires BuiltFrom(t, es, metrics) && Inserted(t, t', e.path, e.ms, metrics)
    ensures BuiltFrom(t', es + [e], metrics)
  {
    assert (es + [e])[..|es + [e]| - 1] == es;
  }

  lemma BuildNone(t: Nodes, metrics: nat)
    requires WellFormed(t) && HasMetrics(t, metrics) && |t| == 1
    requires forall k :: 0 <= k < metrics ==> t[0].metric[k] == 0
    ensures BuiltFrom(t, [], metrics)
  {
    assert PathTo(t, 0) == [];
    forall x ensures x in Paths(t) <==> x == [] {
      assert PathTo(t, 0) in Paths(t);
    }
    forall k: nat | k < metrics ensures TotalMetric(t, metrics, k, |t|) == 0 {
      assert TotalMetric(t, metrics, k, 1) == TotalMetric(t, metrics, k, 0) + t[0].metric[k];
    }
  }

  // ----- leaves ---------------------------------------------------------------------

  /** Node `j` is in the part of the trie below `r`, `r` included. */
  ghost predicate Below(t: Nodes, r: nat, j: nat)
    requires Linked(t) && j < |t|
  {
    j == r || (j > 0 && Below(t, r, t[j].parent.value))
  }

  ghost predicate SameButId(n: IpNode, n': IpNode) {
    n'.parent == n.parent && n'.parentId == n.parentId && n'.ip == n.ip && n'.metric == n.metric && n'.children == n.children
  }

  /** The leaves in `where` have their sign changed. */
  ghost predicate Marked(t: Nodes, t': Nodes, where: set<nat>) {
    && |t'| == |t|
    && (forall j :: 0 <= j < |t| ==> SameButId(t[j], t'[j]))
    && (forall j :: 0 <= j < |t| ==> t'[j].id == if j in where && t[j].children == [] then -t[j].id else t[j].id)
  }

  ghost function BelowSet(t: Nodes, r: nat): set<nat>
    requires Linked(t)
  {
    set j | 0 <= j < |t| && Below(t, r, j)
  }

  /** The nodes below the first `a` children of `r` */
  ghost function BelowKids(t: Nodes, r: nat, a: nat): set<nat>
    requires Linked(t) && r < |t| && a <= |t[r].children|
  {
    if a == 0 then {} else BelowKids(t, r, a - 1) + BelowSet(t, t[r].children[a - 1])
  }

  lemma {:induction false} BelowIsLater(t: Nodes, r: nat, j: nat)
    requires Linked(t) && j < |t| && Below(t, r, j)
    ensures r <= j
  {
    if j != r {
      BelowIsLater(t, r, t[j].parent.value);
    }
  }

  /** Parts below different children have nothing in common: the way up is unique. */
  lemma {:induction false} BelowSiblings(t: Nodes, r: nat, s: nat, j: nat)
    requires Linked(t) && 0 < r < |t| && 0 < s < |t| && j < |t| && t[r].parent == t[s].parent
    requires Below(t, r, j) && Below(t, s, j)
    ensures r == s
  {
    if j == r && j != s {
      BelowIsLater(t, s, t[j].parent.value);
    } else if j == s && j != r {
      BelowIsLater(t, r, t[j].parent.value);
    } else if j != r {
      BelowSiblings(t, r, s, t[j].parent.value);
    }
  }

  lemma {:induction false} KidsAreBelow(t: Nodes, r: nat, a: nat, j: nat)
    requires Linked(t) && r < |t| && ChildList(t, r) && a <= |t[r].children|
    ensures j in BelowKids(t, r, a) <==> exists b :: 0 <= b < a && j in BelowSet(t, t[r].children[b])
  {
    if a > 0 {
      KidsAreBelow(t, r, a - 1, j);
    }
  }

  /** A node's part is the node and the parts of its children. */
  lemma {:induction false} BelowIsKids(t: Nodes, r: nat, j: nat)
    requires Linked(t) && r < |t| && ChildList(t, r) && j < |t|
    ensures Below(t, r, j) <==> j == r || j in BelowKids(t, r, |t[r].children|)
  {
    KidsAreBelow(t, r, |t[r].children|, j);
    if j > 0 {
      BelowIsKids(t, r, t[j].parent.value);
      KidsAreBelow(t, r, |t[r].children|, t[j].parent.value);
      var p := t[j].parent.value;
      if p == r {
        var b :| 0 <= b < |t[r].children| && t[r].children[b] == j;
        assert j in BelowSet(t, t[r].children[b]);
      } else if p in BelowKids(t, r, |t[r].children|) {
        var b :| 0 <= b < |t[r].children| && p in BelowSet(t, t[r].children[b]);
        assert j in BelowSet(t, t[r].children[b]);
      }
      forall b | 0 <= b < |t[r].children| && j in BelowSet(t, t[r].children[b])
        ensures Below(t, r, j)
      {
        if j != t[r].children[b] {
          assert p in BelowSet(t, t[r].children[b]);
        }
      }
    } else {
      forall b | 0 <= b < |t[r].children| ensures 0 !in BelowSet(t, t[r].children[b]) {
      }
    }
  }

  /** Signs of leaves are not part of the shape. */
  lemma MarkedLinks(t: Nodes, t': Nodes, where: set<nat>)
    requires WellFormed(t) && Marked(t, t', where)
    ensures WellFormed(t')
  {
    forall i | 0 <= i < |t'| ensures ChildList(t', i) {
      assert ChildList(t, i);
    }
    forall i, j | 0 < i < |t'| && 0 < j < |t'| && SameNameSiblings(t', i, j) ensures i == j {
      assert SameNameSiblings(t, i, j);
    }
    forall i | 0 < i < |t'| ensures t'[i].parentId == t'[t'[i].parent.value].id {
      assert ChildList(t, t[i].parent.value);
      assert i in t[t[i].parent.value].children;
    }
  }

  lemma {:induction false} MarkedBelow(t: Nodes, t': Nodes, r: nat, j: nat)
    requires Linked(t) && Linked(t') && |t| == |t'| && j < |t|
    requires forall i :: 0 <= i < |t| ==> t'[i].parent == t[i].parent
    ensures Below(t', r, j) <==> Below(t, r, j)
  {
    if j > 0 {
      MarkedBelow(t, t', r, t[j].parent.value);
    }
  }

  lemma SameBelowSet(t: Nodes, t': Nodes, r: nat)
    requires Linked(t) && Linked(t') && |t| == |t'|
    requires forall i :: 0 <= i < |t| ==> t'[i].parent == t[i].parent
    ensures BelowSet(t', r) == BelowSet(t, r)
  {
    forall j | 0 <= j < |t| ensures j in BelowSet(t', r) <==> j in BelowSet(t, r) {
      MarkedBelow(t, t', r, j);
    }
  }

  lemma KidsAreApart(t: Nodes, r: nat, a: nat)
    requires WellFormed(t) && r < |t| && ChildList(t, r) && a < |t[r].children|
    ensures BelowKids(t, r, a) !! BelowSet(t, t[r].children[a])
  {
    forall j | j in BelowSet(t, t[r].children[a]) ensures j !in BelowKids(t, r, a) {
      KidsAreBelow(t, r, a, j);
      if j in BelowKids(t, r, a) {
        var b :| 0 <= b < a && j in BelowSet(t, t[r].children[b]);
        BelowSiblings(t, t[r].children[b], t[r].children[a], j);
      }
    }
  }

  lemma MarkedBoth(t: Nodes, t1: Nodes, t2: Nodes, first: set<nat>, second: set<nat>)
    requires Marked(t, t1, first) && Marked(t1, t2, second) && first !! second
    ensures Marked(t, t2, first + second)
  {
  }

  /** Marking the parts of the first `a` children and then that of the next. */
  lemma MarkedNext(t: Nodes, t1: Nodes, t2: Nodes, r: nat, a: nat)
    requires WellFormed(t) && r < |t| && ChildList(t, r) && a < |t[r].children|
    requires Marked(t, t1, BelowKids(t, r, a)) && WellFormed(t1)
    requires Marked(t1, t2, BelowSet(t1, t[r].children[a]))
    ensures Marked(t, t2, BelowKids(t, r, a + 1))
  {
    SameBelowSet(t, t1, t[r].children[a]);
    KidsAreApart(t, r, a);
    MarkedBoth(t, t1, t2, BelowKids(t, r, a), BelowSet(t, t[r].children[a]));
  }

  /** Marking a leaf, which is all there is below it */
  lemma MarkedLeaf(t: Nodes, r: nat)
    requires WellFormed(t) && r < |t| && t[r].children == []
    ensures Marked(t, t[r := t[r].(id := -t[r].id)], BelowSet(t, r))
  {
    assert ChildList(t, r);
    forall j | 0 <= j < |t| ensures j in BelowSet(t, r) <==> j == r {
      BelowIsKids(t, r, j);
    }
  }

  /** Marking below all children is marking below an inner node. */
  lemma MarkedInner(t: Nodes, t': Nodes, r: nat)
    requires WellFormed(t) && r < |t| && t[r].children != [] && Marked(t, t', BelowKids(t, r, |t[r].children|))
    ensures Marked(t, t', BelowSet(t, r))
  {
    assert ChildList(t, r);
    forall j | 0 <= j < |t| && j != r ensures j in BelowSet(t, r) <==> j in BelowKids(t, r, |t[r].children|) {
      BelowIsKids(t, r, j);
    }
  }

  /** `reset_leaf_node_id`: the identifiers of the leaves below `r`, and of no other node, change
      their sign, each once. */
  method ResetLeafNodeId(trie: Trie, r: nat)
    requires WellFormed(trie.nodes) && r < |trie.nodes|
    modifies trie`nodes
    ensures Marked(old(trie.nodes), trie.nodes, BelowSet(old(trie.nodes), r))
    decreases |trie.nodes| - r, 1
  {
    ghost var t := trie.nodes;
    if trie.nodes[r].children == [] {
      MarkedLeaf(t, r);
      trie.nodes := trie.nodes[r := trie.nodes[r].(id := -trie.nodes[r].id)];
    } else {
      ResetKids(trie, r, trie.nodes[r].children);
      MarkedInner(t, trie.nodes, r);
    }
  }

  /** The next child of `r` */
  method ResetKid(trie: Trie, ghost t: Nodes, ghost r: nat, ghost a: nat, kid: nat)
    requires WellFormed(t) && r < |t| && a < |t[r].children| && kid == t[r].children[a]
    requires Marked(t, trie.nodes, BelowKids(t, r, a))
    modifies trie`nodes
    ensures Marked(t, trie.nodes, BelowKids(t, r, a + 1))
    decreases |trie.nodes| - kid, 2
  {
    ghost var t1 := trie.nodes;
    assert ChildList(t, r);
    MarkedLinks(t, t1, BelowKids(t, r, a));
    ResetLeafNodeId(trie, kid);
    MarkedNext(t, t1, trie.nodes, r, a);
  }

  /** The loop over the children of `r` */
  method ResetKids(trie: Trie, ghost r: nat, kids: seq<nat>)
    requires WellFormed(trie.nodes) && r < |trie.nodes| && kids == trie.nodes[r].children
    modifies trie`nodes
    ensures Marked(old(trie.nodes), trie.nodes, BelowKids(old(trie.nodes), r, |kids|))
    decreases |trie.nodes| - r, 0
  {
    ghost var t := trie.nodes;
    for a := 0 to |kids|
      invariant Marked(t, trie.nodes, BelowKids(t, r, a))
    {
      KidIsLater(t, r, a);
      ResetKid(trie, t, r, a, kids[a]);
    }
  }

  lemma {:induction false} AllBelowRoot(t: Nodes, j: nat)
    requires Linked(t) && j < |t|
    ensures Below(t, 0, j)
  {
    if j > 0 {
      AllBelowRoot(t, t[j].parent.value);
    }
  }

  /** Marking the leaves changes nothing else that was built. */
  lemma MarkedKeeps(t: Nodes, t': Nodes, es: seq<Entry>, metrics: nat, last: nat)
    requires BuiltFrom(t, es, metrics) && DistinctIds(t, last) && Marked(t, t', BelowSet(t, 0)) && WellFormed(t')
    ensures BuiltFrom(t', es, metrics) && DistinctIds(t', last)
  {
    MarkedMeaning(t, t', metrics);
    forall x, k: nat | k < metrics ensures MetricOf(t', metrics, x, k) == SumAt(es, x, k) {
      assert MetricOf(t', metrics, x, k) == MetricOf(t, metrics, x, k);
    }
    forall k: nat | k < metrics ensures TotalMetric(t', metrics, k, |t'|) == SumAll(es, k) {
      SameTotal(t, t', metrics, k, |t|);
    }
  }

  /** Signs are not part of the meaning. */
  lemma MarkedPaths(t: Nodes, t': Nodes, where: set<nat>)
    requires WellFormed(t) && WellFormed(t') && Marked(t, t', where)
    ensures Paths(t') == Paths(t)
    ensures forall i :: 0 <= i < |t| ==> PathTo(t', i) == PathTo(t, i)
  {
    forall i | 0 <= i < |t| ensures PathTo(t', i) == PathTo(t, i) {
      SameLinksSamePath(t, t', i);
    }
    SamePaths(t, t');
  }

  lemma MarkedMeaning(t: Nodes, t': Nodes, metrics: nat)
    requires WellFormed(t) && WellFormed(t') && HasMetrics(t, metrics) && Marked(t, t', BelowSet(t, 0))
    ensures HasMetrics(t', metrics) && Paths(t') == Paths(t)
    ensures forall x, k: nat :: k < metrics ==> MetricOf(t', metrics, x, k) == MetricOf(t, metrics, x, k)
  {
    MarkedPaths(t, t', BelowSet(t, 0));
    assert HasMetrics(t', metrics);
    forall x, k: nat | k < metrics ensures MetricOf(t', metrics, x, k) == MetricOf(t, metrics, x, k) {
      if x in Paths(t) {
        var i :| 0 <= i < |t| && PathTo(t, i) == x;
        MetricIs(t, metrics, i, k);
        MetricIs(t', metrics, i, k);
      }
    }
  }

  lemma {:induction false} SameTotal(t: Nodes, t': Nodes, metrics: nat, k: nat, n: nat)
    requires HasMetrics(t, metrics) && HasMetrics(t', metrics) && k < metrics && n <= |t| == |t'|
    requires forall i :: 0 <= i < |t| ==> t'[i].metric == t[i].metric
    ensures TotalMetric(t', metrics, k, n) == TotalMetric(t, metrics, k, n)
  {
    if n > 0 {
      SameTotal(t, t', metrics, k, n - 1);
    }
  }

  // ----- the sign of leaves ---------------------------------------------------------

  /** The sign of a node's identifier tells whether it is a leaf. */
  ghost predicate Signed(t: Nodes, i: nat)
    requires i < |t|
  {
    t[i].id < 0 <==> t[i].children == []
  }

  ghost predicate AllSigned(t: Nodes) {
    forall i :: 0 <= i < |t| ==> Signed(t, i)
  }

  /** After a call that extends `t` to `t1` and marks the leaves, exactly the nodes that had a negative
      identifier before the call have the wrong sign: an old leaf is flipped back if it is a leaf still,
      and keeps its negative identifier if it is one no more. */
  lemma SignsAfterCall(t: Nodes, t1: Nodes, t2: Nodes, last: nat)
    requires KeepsIds(t, t1) && WellFormed(t1) && DistinctIds(t1, last) && Marked(t1, t2, BelowSet(t1, 0))
    ensures forall i :: 0 <= i < |t2| ==> (Signed(t2, i) <==> !(i < |t| && t[i].id < 0))
    ensures AllSigned(t2) <==> forall i :: 0 <= i < |t| ==> t[i].id >= 0
  {
    forall i | 0 <= i < |t2| ensures Signed(t2, i) <==> !(i < |t| && t[i].id < 0) {
      AllBelowRoot(t1, i);
      assert i in BelowSet(t1, 0) && SameButId(t1[i], t2[i]) && Abs(t1[i].id) > 0;
    }
  }

  lemma LastIsLeaf(t: Nodes)
    requires WellFormed(t)
    ensures t[|t| - 1].children == []
  {
    if t[|t| - 1].children != [] {
      KidIsLater(t, |t| - 1, 0);
    }
  }

  /** A trie with the right signs has a leaf, so the next call leaves a wrong one, whatever it
      inserts. */
  lemma NextCallIsWrong(t: Nodes, t1: Nodes, t2: Nodes, last: nat)
    requires WellFormed(t) && AllSigned(t)
    requires KeepsIds(t, t1) && WellFormed(t1) && DistinctIds(t1, last) && Marked(t1, t2, BelowSet(t1, 0))
    ensures !AllSigned(t2)
  {
    LastIsLeaf(t);
    assert Signed(t, |t| - 1);
    SignsAfterCall(t, t1, t2, last);
  }

  // ----- a call ---------------------------------------------------------------------

  ghost predicate AllAcceptable(prog: seq<Shadow>, c: Cct, runs: seq<RunNode>, metrics: nat) {
    forall i :: 0 <= i < |runs| ==> Acceptable(prog, c, runs[i], metrics)
  }

  /** `t'` is `t`, which was built from `es`, with the first `i` inputs inserted. */
  ghost predicate Grew(prog: seq<Shadow>, c: Cct, t: Nodes, es: seq<Entry>, runs: seq<RunNode>, i: nat, t': Nodes, metrics: nat) {
    && i <= |runs| && AllAcceptable(prog, c, runs[..i], metrics)
    && BuiltFrom(t', es + Entries(prog, c, runs[..i]), metrics) && KeepsIds(t, t')
  }

  /** The inserting loop; false when the process ends. */
  method InsertAll(prog: seq<Shadow>, c: Cct, trie: Trie, runs: seq<RunNode>, ids: IdSource, ghost es: seq<Entry>) returns (ok: bool)
    requires CctInv(prog, c) && trie.Valid(ids) && BuiltFrom(trie.nodes, es, trie.metrics)
    modifies trie`nodes, trie`nodeCount, ids
    ensures ok == AllAcceptable(prog, c, runs, trie.metrics) && (ok ==> trie.Valid(ids))
    ensures ok ==> Grew(prog, c, old(trie.nodes), es, runs, |runs|, trie.nodes, trie.metrics)
  {
    ghost var t := trie.nodes;
    assert es + [] == es && runs[..0] == [];
    for i := 0 to |runs|
      invariant trie.Valid(ids) && Grew(prog, c, t, es, runs, i, trie.nodes, trie.metrics)
    {
      ok := InsertOne(prog, c, trie, runs, i, ids, es, t);
      if !ok {
        return;
      }
    }
    assert runs[..|runs|] == runs;
    ok := true;
  }

  method InsertOne(prog: seq<Shadow>, c: Cct, trie: Trie, runs: seq<RunNode>, i: nat, ids: IdSource, ghost es: seq<Entry>, ghost t: Nodes)
    returns (ok: bool)
    requires CctInv(prog, c) && trie.Valid(ids) && i < |runs|
    requires Grew(prog, c, t, es, runs, i, trie.nodes, trie.metrics)
    modifies trie`nodes, trie`nodeCount, ids
    ensures ok == Acceptable(prog, c, runs[i], trie.metrics)
    ensures ok ==> trie.Valid(ids) && Grew(prog, c, t, es, runs, i + 1, trie.nodes, trie.metrics)
  {
    ghost var t1 := trie.nodes;
    ok := HpcrunInsertPath(prog, c, trie, runs[i], ids);
    if ok {
      GrewNext(prog, c, t, es, runs, i, t1, trie.nodes, trie.metrics);
    }
  }

  lemma GrewNext(prog: seq<Shadow>, c: Cct, t: Nodes, es: seq<Entry>, runs: seq<RunNode>, i: nat, t1: Nodes, t2: Nodes, metrics: nat)
    requires i < |runs| && Grew(prog, c, t, es, runs, i, t1, metrics) && Acceptable(prog, c, runs[i], metrics)
    requires if runs[i].hndls == [] then t2 == t1
             else Inserted(t1, t2, RunPath(prog, c, runs[i].hndls), runs[i].metrics, metrics)
    ensures Grew(prog, c, t, es, runs, i + 1, t2, metrics)
  {
    EntriesNext(prog, c, runs, i, metrics);
    var before := Entries(prog, c, runs[..i]);
    if runs[i].hndls == [] {
      assert before + [] == before;
    } else {
      var e := Entry(RunPath(prog, c, runs[i].hndls), runs[i].metrics);
      assert (es + before) + [e] == es + (before + [e]);
      BuildNext(t1, t2, es + before, e, metrics);
    }
  }

  lemma EntriesNext(prog: seq<Shadow>, c: Cct, runs: seq<RunNode>, i: nat, metrics: nat)
    requires i < |runs| && AllAcceptable(prog, c, runs[..i], metrics) && Acceptable(prog, c, runs[i], metrics)
    ensures AllAcceptable(prog, c, runs[..i + 1], metrics)
    ensures Entries(prog, c, runs[..i + 1]) == Entries(prog, c, runs[..i])
              + if runs[i].hndls == [] then [] else [Entry(RunPath(prog, c, runs[i].hndls), runs[i].metrics)]
  {
    assert runs[..i + 1][..i] == runs[..i];
  }

  /** The loop of `build_thread_custom_cct_hpurun_format` and the marking after it, on a trie that was
      built from `es` by the calls before.  One node per distinct prefix of all inputs so far, and the
      sums of their values; but the signs are right only for nodes that had a positive identifier before
      the call. */
  method BuildOn(prog: seq<Shadow>, c: Cct, trie: Trie, runs: seq<RunNode>, ids: IdSource, ghost es: seq<Entry>) returns (ok: bool)
    requires CctInv(prog, c) && trie.Valid(ids) && BuiltFrom(trie.nodes, es, trie.metrics)
    modifies trie`nodes, trie`nodeCount, ids
    ensures ok == AllAcceptable(prog, c, runs, trie.metrics) && (ok ==> trie.Valid(ids))
    ensures ok ==> BuiltFrom(trie.nodes, es + Entries(prog, c, runs), trie.metrics)
    ensures ok ==> forall i :: 0 <= i < |trie.nodes| ==>
                     (Signed(trie.nodes, i) <==> !(i < |old(trie.nodes)| && old(trie.nodes)[i].id < 0))
    ensures ok && AllSigned(old(trie.nodes)) ==> !AllSigned(trie.nodes)
  {
    ghost var t := trie.nodes;
    ok := InsertAll(prog, c, trie, runs, ids, es);
    if ok {
      assert runs[..|runs|] == runs;
      ghost var t1 := trie.nodes;
      ResetLeafNodeId(trie, 0);
      MarkedLinks(t1, trie.nodes, BelowSet(t1, 0));
      MarkedKeeps(t1, trie.nodes, es + Entries(prog, c, runs), trie.metrics, ids.last);
      SignsAfterCall(t, t1, trie.nodes, ids.last);
      if AllSigned(t) {
        NextCallIsWrong(t, t1, trie.nodes, ids.last);
      }
    }
  }

  /** `build_progress_custom_cct_hpurun_format`, which starts over with every call.  One node per
      distinct prefix, the root included; every node's values are the sums over the inputs that end
      there, and together they are all the inputs' values; identifiers differ, are negative exactly at
      leaves, and each node has its parent's. */
  method BuildCustomCct(prog: seq<Shadow>, c: Cct, runs: seq<RunNode>, metrics: nat, ids: IdSource) returns (ok: bool, trie: Trie)
    requires CctInv(prog, c)
    modifies ids
    ensures fresh(trie) && ok == AllAcceptable(prog, c, runs, metrics) && trie.metrics == metrics
    ensures ok ==> trie.Valid(ids) && Paths(trie.nodes) == Prefixes(Entries(prog, c, runs))
    ensures ok ==> BuiltFrom(trie.nodes, Entries(prog, c, runs), metrics)
    ensures ok ==> trie.nodeCount == |trie.nodes| == |Prefixes(Entries(prog, c, runs))|
    ensures ok ==> forall x, k: nat :: k < metrics ==> MetricOf(trie.nodes, metrics, x, k) == SumAt(Entries(prog, c, runs), x, k)
    ensures ok ==> forall k: nat :: k < metrics ==>
                     TotalMetric(trie.nodes, metrics, k, |trie.nodes|) == SumAll(Entries(prog, c, runs), k)
    ensures ok ==> AllSigned(trie.nodes)
  {
    trie := new Trie(metrics, 0, ids);
    BuildNone(trie.nodes, metrics);
    ok := BuildOn(prog, c, trie, runs, ids, []);
    if ok {
      assert [] + Entries(prog, c, runs) == Entries(prog, c, runs);
      CountPaths(trie.nodes);
    }
  }
}

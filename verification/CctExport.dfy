/** The export of a thread's whole calling-context tree: a recursive merge that puts nodes with
    equal addresses under one parent together. */
module CctExport {
  import opened Options
  import opened SplayTree
  import opened CallingContext
  import opened ContextRuns
  import opened CallPaths
  import opened HpcTrie
  import opened HpcPaths
  import opened HpcBuild

  // ----- what should be exported ----------------------------------------------------

  /** The calling addresses of a context, from the thread root inwards */
  ghost function CallPath(prog: seq<Shadow>, c: Cct, h: nat): HpcTrie.Path
    requires IsContext(prog, c, h)
  {
    Reverse(ContextIps(prog, c, h))
  }

  /** Node `n` is `r` or has been called, directly or not, from `r`. */
  ghost predicate NodeBelow(c: Cct, r: nat, n: nat)
    requires Rooted(c) && IsNode(c, n)
  {
    assert NodeRooted(c, n);
    n == r || (c.nodes[n].parent.Some? && NodeBelow(c, r, c.nodes[n].parent.value))
  }

  /** The handles of node `r` and of all nodes below it */
  ghost function Under(prog: seq<Shadow>, c: Cct, r: nat): set<nat>
    requires CctInv(prog, c)
  {
    set h | FIRST_HANDLE <= h < c.Idle() && OwnedBelow(prog, c, r, h)
  }

  ghost predicate OwnedBelow(prog: seq<Shadow>, c: Cct, r: nat, h: nat)
    requires CctInv(prog, c) && FIRST_HANDLE <= h < c.Idle()
  {
    assert Owned(c, h);
    NodeBelow(c, r, c.owner[h].value)
  }

  /** The handles of the nodes a splay tree of callees of `p` indexes, and of all below them */
  ghost function UnderTree(prog: seq<Shadow>, c: Cct, p: nat, t: Tree<nat>): set<nat>
    requires CctInv(prog, c) && Callees(c, p, t)
  {
    if t.Leaf? then {}
    else
      TreeParts(c, p, t);
      UnderTree(prog, c, p, t.left) + Under(prog, c, c.payload[t.id]) + UnderTree(prog, c, p, t.right)
  }

  ghost predicate Callees(c: Cct, p: nat, t: Tree<nat>) {
    forall e :: e in Inorder(t) ==> EntryOk(c, p, e)
  }

  lemma TreeParts(c: Cct, p: nat, t: Tree<nat>)
    requires Callees(c, p, t) && t.Node?
    ensures Callees(c, p, t.left) && Callees(c, p, t.right) && EntryOk(c, p, SplayTree.Entry(t.id, t.key))
  {
    var e := SplayTree.Entry(t.id, t.key);
    assert Inorder(t)[|Inorder(t.left)|] == e;
    assert e in Inorder(t);
    forall x | x in Inorder(t.left) || x in Inorder(t.right) ensures EntryOk(c, p, x) {
      assert x in Inorder(t);
    }
  }

  lemma {:induction false} InUnderTree(prog: seq<Shadow>, c: Cct, p: nat, t: Tree<nat>, h: nat)
    requires CctInv(prog, c) && Callees(c, p, t)
    ensures h in UnderTree(prog, c, p, t) <==> exists e :: e in Inorder(t) && h in Under(prog, c, c.payload[e.id])
  {
    if t.Node? {
      TreeParts(c, p, t);
      InUnderTree(prog, c, p, t.left, h);
      InUnderTree(prog, c, p, t.right, h);
      var root := SplayTree.Entry(t.id, t.key);
      assert Inorder(t)[|Inorder(t.left)|] == root;
      if h in Under(prog, c, c.payload[t.id]) {
        assert root in Inorder(t);
      }
    }
  }

  lemma {:induction false} BelowCallee(c: Cct, p: nat, n: nat)
    requires Rooted(c) && IsNode(c, n)
    ensures NodeBelow(c, p, n) <==> n == p || exists m: nat :: IsNode(c, m) && c.nodes[m].parent == Some(p) && NodeBelow(c, m, n)
  {
    assert NodeRooted(c, n);
    if c.nodes[n].parent.Some? {
      var q := c.nodes[n].parent.value;
      BelowCallee(c, p, q);
      if q == p {
        assert NodeBelow(c, n, n);
      } else if NodeBelow(c, p, q) {
        var m: nat :| IsNode(c, m) && c.nodes[m].parent == Some(p) && NodeBelow(c, m, q);
        assert NodeBelow(c, m, n);
      }
      if exists m: nat :: IsNode(c, m) && c.nodes[m].parent == Some(p) && NodeBelow(c, m, n) {
        var m: nat :| IsNode(c, m) && c.nodes[m].parent == Some(p) && NodeBelow(c, m, n);
        assert m != n ==> NodeBelow(c, m, q);
      }
    }
  }

  ghost function OwnHandles(c: Cct, n: nat): set<nat>
    requires IsNode(c, n)
  {
    set h | 0 <= h < |c.owner| && c.owner[h] == Some(n)
  }

  /** What is below a node: its own handles, and what its tree of callees indexes. */
  lemma UnderSplit(prog: seq<Shadow>, c: Cct, n: nat)
    requires CctInv(prog, c) && IsNode(c, n)
    ensures TreeIndexes(c, n, c.trees[n])
    ensures Under(prog, c, n) == OwnHandles(c, n) + UnderTree(prog, c, n, c.trees[n])
  {
    assert TreeIndexes(c, n, c.trees[n]);
    forall h: nat ensures h in Under(prog, c, n) <==> h in OwnHandles(c, n) || h in UnderTree(prog, c, n, c.trees[n]) {
      InUnderTree(prog, c, n, c.trees[n], h);
      if FIRST_HANDLE <= h < c.Idle() {
        UnderOne(prog, c, n, h);
        if h in OwnHandles(c, n) {
          assert OwnedBelow(prog, c, n, h);
        }
      }
    }
  }

  lemma UnderOne(prog: seq<Shadow>, c: Cct, n: nat, h: nat)
    requires CctInv(prog, c) && IsNode(c, n) && FIRST_HANDLE <= h < c.Idle() && TreeIndexes(c, n, c.trees[n])
    ensures OwnedBelow(prog, c, n, h) ==>
              h in OwnHandles(c, n) || exists e :: e in Inorder(c.trees[n]) && h in Under(prog, c, c.payload[e.id])
    ensures (exists e :: e in Inorder(c.trees[n]) && h in Under(prog, c, c.payload[e.id])) ==> OwnedBelow(prog, c, n, h)
  {
    assert Owned(c, h);
    var o := c.owner[h].value;
    BelowCallee(c, n, o);
    if NodeBelow(c, n, o) && o != n {
      var m: nat :| IsNode(c, m) && c.nodes[m].parent == Some(n) && NodeBelow(c, m, o);
      assert IsCallee(c, n, c.nodes[m].key, m);
      var e :| e in Inorder(c.trees[n]) && e.key == c.nodes[m].key;
      assert EntryOk(c, n, e);
      OneCallee(c, n, m, c.payload[e.id]);
      assert OwnedBelow(prog, c, m, h);
    }
    if exists e :: e in Inorder(c.trees[n]) && h in Under(prog, c, c.payload[e.id]) {
      var e :| e in Inorder(c.trees[n]) && h in Under(prog, c, c.payload[e.id]);
      assert EntryOk(c, n, e);
      assert IsNode(c, c.payload[e.id]) && NodeBelow(c, c.payload[e.id], o);
    }
  }

  lemma OneCallee(c: Cct, p: nat, m: nat, n: nat)
    requires Rooted(c) && IsNode(c, m) && IsNode(c, n)
    requires c.nodes[m].parent == Some(p) == c.nodes[n].parent && c.nodes[m].key == c.nodes[n].key
    ensures m == n
  {
    if m < n {
      assert Siblings(c, m, n);
    } else if n < m {
      assert Siblings(c, n, m);
    }
  }

  // ----- what one part of the merge does --------------------------------------------

  ghost predicate AreContexts(c: Cct, hs: set<nat>) {
    forall h :: h in hs ==> FIRST_HANDLE <= h < c.Idle()
  }

  ghost function CallPathsOf(prog: seq<Shadow>, c: Cct, hs: set<nat>): set<HpcTrie.Path>
    requires CctInv(prog, c) && AreContexts(c, hs)
  {
    set h | h in hs :: CallPath(prog, c, h)
  }

  /** The call paths of the contexts `hs` were merged into the trie. */
  ghost predicate Merged(prog: seq<Shadow>, c: Cct, t: Nodes, t': Nodes, hs: set<nat>) {
    && CctInv(prog, c) && AreContexts(c, hs) && WellFormed(t) && WellFormed(t') && |t| <= |t'|
    && (forall i :: 0 <= i < |t| ==> PathTo(t', i) == PathTo(t, i))
    && Paths(t') == Paths(t) + CallPathsOf(prog, c, hs)
  }

  lemma MergedNone(prog: seq<Shadow>, c: Cct, t: Nodes)
    requires CctInv(prog, c) && WellFormed(t)
    ensures Merged(prog, c, t, t, {})
  {
  }

  lemma MergedBoth(prog: seq<Shadow>, c: Cct, t: Nodes, t1: Nodes, t2: Nodes, hs: set<nat>, hs': set<nat>)
    requires Merged(prog, c, t, t1, hs) && Merged(prog, c, t1, t2, hs')
    ensures Merged(prog, c, t, t2, hs + hs')
  {
    assert AreContexts(c, hs + hs');
    forall x ensures x in CallPathsOf(prog, c, hs + hs') <==> x in CallPathsOf(prog, c, hs) || x in CallPathsOf(prog, c, hs') {
      if x in CallPathsOf(prog, c, hs) {
        var h :| h in hs && CallPath(prog, c, h) == x;
        assert h in hs + hs';
      }
      if x in CallPathsOf(prog, c, hs') {
        var h :| h in hs' && CallPath(prog, c, h) == x;
        assert h in hs + hs';
      }
    }
  }

  lemma OnePath(prog: seq<Shadow>, c: Cct, h: nat)
    requires IsContext(prog, c, h)
    ensures CallPathsOf(prog, c, {h}) == {CallPath(prog, c, h)}
  {
    assert h in {h};
  }

  /** A context that is there already */
  lemma MergedFound(prog: seq<Shadow>, c: Cct, t: Nodes, cur: nat, child: nat, h: nat)
    requires IsContext(prog, c, h) && WellFormed(t) && cur < |t| && 0 < child < |t| && t[child].parent == Some(cur)
    requires CallPath(prog, c, h) == PathTo(t, cur) + [t[child].ip]
    ensures PathTo(t, child) == CallPath(prog, c, h) && Merged(prog, c, t, t, {h})
  {
    OnePath(prog, c, h);
    assert PathTo(t, child) in Paths(t);
    assert Paths(t) + {CallPath(prog, c, h)} == Paths(t);
  }

  /** A new one */
  lemma MergedGrown(prog: seq<Shadow>, c: Cct, t: Nodes, cur: nat, ip: nat, id: int, metrics: nat, h: nat)
    requires IsContext(prog, c, h) && WellFormed(t) && cur < |t| && Lacks(t, cur, ip)
    requires CallPath(prog, c, h) == PathTo(t, cur) + [ip]
    ensures Merged(prog, c, t, Grown(t, cur, ip, id, metrics), {h})
    ensures PathTo(Grown(t, cur, ip, id, metrics), |t|) == CallPath(prog, c, h)
  {
    OnePath(prog, c, h);
    GrownPaths(t, cur, ip, id, metrics);
    forall i | 0 <= i < |t| ensures PathTo(Grown(t, cur, ip, id, metrics), i) == PathTo(t, i) {
      GrownPath(t, cur, ip, id, metrics, i);
    }
  }

  function Negated(t: Nodes, n: nat): Nodes
    requires n < |t|
  {
    t[n := t[n].(id := -t[n].id)]
  }

  /** A leaf's mark changes no path. */
  lemma MergedMarked(prog: seq<Shadow>, c: Cct, t: Nodes, t1: Nodes, n: nat, hs: set<nat>)
    requires Merged(prog, c, t, t1, hs) && n < |t1| && t1[n].children == []
    ensures Merged(prog, c, t, Negated(t1, n), hs)
  {
    var t2 := Negated(t1, n);
    MarkedLinks(t1, t2, {n});
    MarkedPaths(t1, t2, {n});
  }

  // ----- contexts of one node -------------------------------------------------------

  /** The caller of a block execution */
  lemma CallerOfSlot(prog: seq<Shadow>, c: Cct, n: nat, p: nat, h: nat)
    requires CctInv(prog, c) && IsNode(c, n) && c.nodes[n].parent == Some(p) && c.nodes[n].start <= h < c.nodes[n].End()
    ensures IsNode(c, p) && p < n && IsContext(prog, c, h) && IsContext(prog, c, c.nodes[p].LastHandle())
    ensures c.owner[h] == Some(n) && CallerHandle(prog, c, h) == c.nodes[p].LastHandle()
  {
    assert NodeTiled(prog, c, n) && NodeRooted(c, n) && NodeTiled(prog, c, p);
    OwnerOfRange(prog, c, n, h);
    OwnerOfRange(prog, c, p, c.nodes[p].LastHandle());
  }

  /** Contexts of one block execution have one caller, whose path they extend by their address. */
  lemma CallPathStep(prog: seq<Shadow>, c: Cct, n: nat, p: nat, i: nat, h: nat)
    requires CctInv(prog, c) && IsNode(c, n) && c.nodes[n].parent == Some(p) && i < c.nodes[n].slots && h == c.nodes[n].start + i
    ensures IsNode(c, p) && p < n && IsContext(prog, c, h) && IsContext(prog, c, c.nodes[p].LastHandle())
    ensures c.nodes[n].key < |prog| && i < |prog[c.nodes[n].key].ips|
    ensures CallPath(prog, c, h) == CallPath(prog, c, c.nodes[p].LastHandle()) + [prog[c.nodes[n].key].ips[i]]
  {
    CallerOfSlot(prog, c, n, p, h);
    assert NodeTiled(prog, c, n) && NodeRooted(c, n);
    ContextIpsStep(prog, c, h);
    PcOfSlot(prog, c, n, i, h);
    var ips := ContextIps(prog, c, h);
    assert ips[0] == prog[c.nodes[n].key].ips[i] && ips[1..] == ContextIps(prog, c, c.nodes[p].LastHandle());
  }

  lemma PcOfSlot(prog: seq<Shadow>, c: Cct, n: nat, i: nat, h: nat)
    requires IsContext(prog, c, h) && IsNode(c, n) && c.owner[h] == Some(n) && c.nodes[n].parent.Some?
    requires i < c.nodes[n].slots && h == c.nodes[n].start + i
    ensures c.nodes[n].key < |prog| && i < |prog[c.nodes[n].key].ips| && HandlePc(prog, c, h) == prog[c.nodes[n].key].ips[i]
  {
    assert NodeTiled(prog, c, n) && NodeRooted(c, n);
    assert h - c.nodes[n].start == i;
  }

  /** The tree of callees hangs off the last instruction of a block. */
  function CalleeTree(c: Cct, n: nat, i: nat): Tree<nat>
    requires n < |c.trees| && IsNode(c, n)
  {
    if i + 1 == c.nodes[n].slots then c.trees[n] else Leaf
  }

  ghost function SlotUnder(prog: seq<Shadow>, c: Cct, n: nat, i: nat): set<nat>
    requires CctInv(prog, c) && IsNode(c, n)
  {
    assert TreeIndexes(c, n, c.trees[n]);
    {c.nodes[n].start + i} + UnderTree(prog, c, n, CalleeTree(c, n, i))
  }

  ghost function SlotsUnder(prog: seq<Shadow>, c: Cct, n: nat, k: nat): set<nat>
    requires CctInv(prog, c) && IsNode(c, n)
  {
    if k == 0 then {} else SlotsUnder(prog, c, n, k - 1) + SlotUnder(prog, c, n, k - 1)
  }

  lemma {:induction false} SomeSlots(prog: seq<Shadow>, c: Cct, n: nat, k: nat, h: nat)
    requires CctInv(prog, c) && IsNode(c, n) && k < c.nodes[n].slots
    ensures h in SlotsUnder(prog, c, n, k) <==> c.nodes[n].start <= h < c.nodes[n].start + k
  {
    if k > 0 {
      SomeSlots(prog, c, n, k - 1, h);
    }
  }

  /** All slots of a node make up what is below it. */
  lemma AllSlots(prog: seq<Shadow>, c: Cct, n: nat)
    requires CctInv(prog, c) && IsNode(c, n)
    ensures SlotsUnder(prog, c, n, c.nodes[n].slots) == Under(prog, c, n)
  {
    assert NodeTiled(prog, c, n);
    var k := c.nodes[n].slots - 1;
    UnderSplit(prog, c, n);
    forall h: nat ensures h in SlotsUnder(prog, c, n, k + 1) <==> h in Under(prog, c, n) {
      SomeSlots(prog, c, n, k, h);
      NodeRange(prog, c, n);
      if FIRST_HANDLE <= h < c.Idle() {
        assert Owned(c, h);
      }
      if c.nodes[n].start <= h < c.nodes[n].End() {
        OwnerOfRange(prog, c, n, h);
      }
    }
    assert k + 1 == c.nodes[n].slots;
  }

  // ----- the merge ------------------------------------------------------------------

  /** The child of `cur` for slot `i` of node `n`; `made` tells whether it is new. */
  method FindOrMake(prog: seq<Shadow>, c: Cct, trie: Trie, cur: nat, ip: nat, ghost h: nat, ids: IdSource) returns (node: nat, made: bool)
    requires IsContext(prog, c, h) && trie.Valid(ids) && cur < |trie.nodes|
    requires CallPath(prog, c, h) == PathTo(trie.nodes, cur) + [ip]
    modifies trie`nodes, trie`nodeCount, ids
    ensures old(ids.last) <= ids.last
    ensures trie.Valid(ids) && node < |trie.nodes| && (made ==> trie.nodes[node].children == [])
    ensures PathTo(trie.nodes, node) == CallPath(prog, c, h)
    ensures Merged(prog, c, old(trie.nodes), trie.nodes, {h})
  {
    var same := trie.FindSameIp(cur, ip);
    if same.Some? {
      MergedFound(prog, c, trie.nodes, cur, same.value, h);
      return same.value, false;
    }
    node := trie.ConstructIpNode(cur, ip, ids);
    MergedGrown(prog, c, old(trie.nodes), cur, ip, ids.last, trie.metrics, h);
    made := true;
  }

  lemma NegatedIds(t: Nodes, n: nat, last: nat, metrics: nat)
    requires DistinctIds(t, last) && HasMetrics(t, metrics) && n < |t|
    ensures DistinctIds(Negated(t, n), last) && HasMetrics(Negated(t, n), metrics)
  {
    var t' := Negated(t, n);
    assert forall i :: 0 <= i < |t| ==> Abs(t'[i].id) == Abs(t[i].id) && t'[i].metric == t[i].metric;
  }

  /** A node made for a context without callees gets a negative identifier. */
  method MarkLeaf(prog: seq<Shadow>, c: Cct, trie: Trie, node: nat, ghost ids: IdSource)
    requires CctInv(prog, c) && trie.Valid(ids) && node < |trie.nodes| && trie.nodes[node].children == []
    modifies trie`nodes
    ensures trie.Valid(ids) && Merged(prog, c, old(trie.nodes), trie.nodes, {})
  {
    ghost var t := trie.nodes;
    MergedNone(prog, c, t);
    MergedMarked(prog, c, t, t, node, {});
    NegatedIds(t, node, ids.last, trie.metrics);
    trie.nodes := Negated(trie.nodes, node);
  }

  lemma SlotIs(prog: seq<Shadow>, c: Cct, n: nat, i: nat, h: nat)
    requires CctInv(prog, c) && IsNode(c, n) && h == c.nodes[n].start + i
    ensures TreeIndexes(c, n, c.trees[n]) && Callees(c, n, CalleeTree(c, n, i))
    ensures SlotUnder(prog, c, n, i) == {h} + UnderTree(prog, c, n, CalleeTree(c, n, i))
    ensures CalleeTree(c, n, i) != Leaf ==> h == c.nodes[n].LastHandle()
    ensures CalleeTree(c, n, i) == Leaf ==> UnderTree(prog, c, n, CalleeTree(c, n, i)) == {}
  {
    assert TreeIndexes(c, n, c.trees[n]);
  }

  /** Slot `i` of node `n` below trie node `cur`: finds or makes the child with its address, and
      goes on with the callees of the slot there. */
  method MergeSlot(prog: seq<Shadow>, c: Cct, trie: Trie, cur: nat, n: nat, i: nat, ip: nat, ghost h: nat, ids: IdSource)
    requires CctInv(prog, c) && trie.Valid(ids) && cur < |trie.nodes|
    requires IsNode(c, n) && i < c.nodes[n].slots && h == c.nodes[n].start + i && IsContext(prog, c, h)
    requires CallPath(prog, c, h) == PathTo(trie.nodes, cur) + [ip]
    modifies trie`nodes, trie`nodeCount, ids
    ensures old(ids.last) <= ids.last
    ensures trie.Valid(ids) && Merged(prog, c, old(trie.nodes), trie.nodes, SlotUnder(prog, c, n, i))
    decreases |c.nodes| - n, Size(c.trees[n]) + 1
  {
    ghost var t := trie.nodes;
    var node, made := FindOrMake(prog, c, trie, cur, ip, h, ids);
    ghost var t1 := trie.nodes;
    SlotIs(prog, c, n, i, h);
    var callees := CalleeTree(c, n, i);
    if callees != Leaf {
      TranverseIps(prog, c, trie, node, n, callees, ids);
    } else if made {
      MarkLeaf(prog, c, trie, node, ids);
    } else {
      MergedNone(prog, c, t1);
    }
    MergedBoth(prog, c, t, t1, trie.nodes, {h}, UnderTree(prog, c, n, callees));
  }

  lemma SlotsNext(prog: seq<Shadow>, c: Cct, n: nat, i: nat)
    requires CctInv(prog, c) && IsNode(c, n)
    ensures SlotsUnder(prog, c, n, i + 1) == SlotsUnder(prog, c, n, i) + SlotUnder(prog, c, n, i)
  {
    assert i + 1 - 1 == i;
  }

  /** One more slot of node `n`, a callee of `p` */
  method MergeNextSlot(prog: seq<Shadow>, c: Cct, trie: Trie, cur: nat, n: nat, i: nat, ghost p: nat, ghost t: Nodes, ids: IdSource)
    requires CctInv(prog, c) && trie.Valid(ids) && cur < |t|
    requires IsNode(c, n) && c.nodes[n].parent == Some(p) && i < c.nodes[n].slots
    requires IsNode(c, p) && IsContext(prog, c, c.nodes[p].LastHandle())
    requires Merged(prog, c, t, trie.nodes, SlotsUnder(prog, c, n, i))
    requires PathTo(t, cur) == CallPath(prog, c, c.nodes[p].LastHandle())
    modifies trie`nodes, trie`nodeCount, ids
    ensures old(ids.last) <= ids.last
    ensures trie.Valid(ids) && Merged(prog, c, t, trie.nodes, SlotsUnder(prog, c, n, i + 1))
    decreases |c.nodes| - n, Size(c.trees[n]) + 2
  {
    ghost var t1 := trie.nodes;
    ghost var h := c.nodes[n].start + i;
    CallPathStep(prog, c, n, p, i, h);
    MergeSlot(prog, c, trie, cur, n, i, prog[c.nodes[n].key].ips[i], h, ids);
    SlotsNext(prog, c, n, i);
    MergedBoth(prog, c, t, t1, trie.nodes, SlotsUnder(prog, c, n, i), SlotUnder(prog, c, n, i));
  }

  /** The loop over the slots of node `n`, a callee of `p` */
  method MergeNode(prog: seq<Shadow>, c: Cct, trie: Trie, cur: nat, n: nat, ghost p: nat, ids: IdSource)
    requires CctInv(prog, c) && trie.Valid(ids) && cur < |trie.nodes|
    requires IsNode(c, n) && c.nodes[n].parent == Some(p) && IsNode(c, p) && IsContext(prog, c, c.nodes[p].LastHandle())
    requires PathTo(trie.nodes, cur) == CallPath(prog, c, c.nodes[p].LastHandle())
    modifies trie`nodes, trie`nodeCount, ids
    ensures old(ids.last) <= ids.last
    ensures trie.Valid(ids) && Merged(prog, c, old(trie.nodes), trie.nodes, Under(prog, c, n))
    decreases |c.nodes| - n, Size(c.trees[n]) + 3
  {
    ghost var t := trie.nodes;
    MergedNone(prog, c, t);
    for i := 0 to c.nodes[n].slots
      invariant old(ids.last) <= ids.last
      invariant trie.Valid(ids) && Merged(prog, c, t, trie.nodes, SlotsUnder(prog, c, n, i))
    {
      MergeNextSlot(prog, c, trie, cur, n, i, p, t, ids);
    }
    AllSlots(prog, c, n);
  }

  /** `tranverseIPs`: merges everything below the callees of `p` that `tree` indexes, left to
      right, below trie node `cur`, which stands for the last context of `p`. */
  method TranverseIps(prog: seq<Shadow>, c: Cct, trie: Trie, cur: nat, ghost p: nat, tree: Tree<nat>, ids: IdSource)
    requires CctInv(prog, c) && trie.Valid(ids) && cur < |trie.nodes|
    requires IsNode(c, p) && IsContext(prog, c, c.nodes[p].LastHandle()) && Callees(c, p, tree)
    requires PathTo(trie.nodes, cur) == CallPath(prog, c, c.nodes[p].LastHandle())
    modifies trie`nodes, trie`nodeCount, ids
    ensures old(ids.last) <= ids.last
    ensures trie.Valid(ids) && Merged(prog, c, old(trie.nodes), trie.nodes, UnderTree(prog, c, p, tree))
    decreases |c.nodes| - p, Size(tree)
  {
    ghost var t := trie.nodes;
    MergedNone(prog, c, t);
    if tree != Leaf {
      TreeParts(c, p, tree);
      var n := c.payload[tree.id];
      assert NodeRooted(c, n);
      TranverseIps(prog, c, trie, cur, p, tree.left, ids);
      ghost var t1 := trie.nodes;
      MergeNode(prog, c, trie, cur, n, p, ids);
      ghost var t2 := trie.nodes;
      MergedBoth(prog, c, t, t1, t2, UnderTree(prog, c, p, tree.left), Under(prog, c, n));
      TranverseIps(prog, c, trie, cur, p, tree.right, ids);
      MergedBoth(prog, c, t, t2, trie.nodes, UnderTree(prog, c, p, tree.left) + Under(prog, c, n), UnderTree(prog, c, p, tree.right));
    }
  }

  // ----- a whole thread -------------------------------------------------------------

  /** The contexts of the thread with root node `root`. */
  ghost function ThreadContexts(prog: seq<Shadow>, c: Cct, root: nat): set<nat>
    requires CctInv(prog, c)
  {
    set h | FIRST_HANDLE <= h < c.Idle() && OfThread(prog, c, root, h)
  }

  ghost predicate OfThread(prog: seq<Shadow>, c: Cct, root: nat, h: nat)
    requires CctInv(prog, c) && FIRST_HANDLE <= h < c.Idle()
  {
    assert Owned(c, h);
    RootOf(c, c.owner[h].value) == root
  }

  lemma {:induction false} BelowRoot(c: Cct, root: nat, n: nat)
    requires Rooted(c) && IsNode(c, root) && IsNode(c, n) && c.nodes[root].parent.None?
    ensures NodeBelow(c, root, n) <==> RootOf(c, n) == root
  {
    assert NodeRooted(c, n);
    if c.nodes[n].parent.Some? {
      BelowRoot(c, root, c.nodes[n].parent.value);
      RootIsRoot(c, n);
    }
  }

  lemma {:induction false} RootIsRoot(c: Cct, n: nat)
    requires Rooted(c) && IsNode(c, n)
    ensures IsNode(c, RootOf(c, n)) && c.nodes[RootOf(c, n)].parent.None?
  {
    assert NodeRooted(c, n);
    if c.nodes[n].parent.Some? {
      RootIsRoot(c, c.nodes[n].parent.value);
    }
  }

  lemma UnderRoot(prog: seq<Shadow>, c: Cct, root: nat)
    requires CctInv(prog, c) && IsNode(c, root) && c.nodes[root].parent.None?
    ensures Under(prog, c, root) == ThreadContexts(prog, c, root)
  {
    forall h | FIRST_HANDLE <= h < c.Idle() ensures OwnedBelow(prog, c, root, h) <==> OfThread(prog, c, root, h) {
      assert Owned(c, h);
      BelowRoot(c, root, c.owner[h].value);
    }
  }

  /** The one context of a thread root: its path is empty. */
  lemma RootContext(prog: seq<Shadow>, c: Cct, root: nat)
    requires CctInv(prog, c) && IsNode(c, root) && c.nodes[root].parent.None?
    ensures c.nodes[root].slots == 1 && IsContext(prog, c, c.nodes[root].start) && c.owner[c.nodes[root].start] == Some(root)
    ensures c.nodes[root].LastHandle() == c.nodes[root].start && CallPath(prog, c, c.nodes[root].start) == []
    ensures OwnHandles(c, root) == {c.nodes[root].start}
  {
    var h := c.nodes[root].start;
    assert NodeTiled(prog, c, root) && NodeRooted(c, root);
    OwnerOfRange(prog, c, root, h);
    ContextIpsStep(prog, c, h);
    forall x: nat | x < |c.owner| && c.owner[x] == Some(root) ensures x == h {
      assert Owned(c, x);
    }
  }

  /** `write_thread_all_cct_hpcrun_format`, up to the writing: the exported trie has one node for
      every different call path of the thread's contexts -- the vector of calling addresses
      reversed -- and no other; siblings have different addresses.  The counter, which stood at
      `count`, has grown by the number of nodes. */
  method ExportThread(prog: seq<Shadow>, c: Cct, root: nat, metrics: nat, count: nat, ids: IdSource) returns (trie: Trie)
    requires CctInv(prog, c) && IsNode(c, root) && c.nodes[root].parent.None?
    modifies ids
    ensures fresh(trie) && trie.Valid(ids) && old(ids.last) <= ids.last
    ensures AreContexts(c, ThreadContexts(prog, c, root))
    ensures Paths(trie.nodes) == CallPathsOf(prog, c, ThreadContexts(prog, c, root))
    ensures |trie.nodes| == |CallPathsOf(prog, c, ThreadContexts(prog, c, root))|
    ensures trie.nodeCount == count + |CallPathsOf(prog, c, ThreadContexts(prog, c, root))|
  {
    trie := new Trie(metrics, count, ids);
    ghost var t, h := trie.nodes, c.nodes[root].start;
    RootContext(prog, c, root);
    RootOnly(t);
    if c.trees[root] != Leaf {
      assert TreeIndexes(c, root, c.trees[root]);
      TranverseIps(prog, c, trie, 0, root, c.trees[root], ids);
    } else {
      MarkLeaf(prog, c, trie, 0, ids);
    }
    ThreadPaths(prog, c, root, t, trie.nodes);
    CountPaths(trie.nodes);
  }

  lemma RootOnly(t: Nodes)
    requires WellFormed(t) && |t| == 1
    ensures Paths(t) == {[]} && PathTo(t, 0) == []
  {
    assert PathTo(t, 0) in Paths(t);
  }

  lemma ThreadPaths(prog: seq<Shadow>, c: Cct, root: nat, t: Nodes, t': Nodes)
    requires CctInv(prog, c) && IsNode(c, root) && c.nodes[root].parent.None?
    requires TreeIndexes(c, root, c.trees[root]) && WellFormed(t) && Paths(t) == {[]}
    requires Merged(prog, c, t, t', UnderTree(prog, c, root, c.trees[root]))
    ensures AreContexts(c, ThreadContexts(prog, c, root))
    ensures Paths(t') == CallPathsOf(prog, c, ThreadContexts(prog, c, root))
  {
    var h := c.nodes[root].start;
    RootContext(prog, c, root);
    UnderSplit(prog, c, root);
    UnderRoot(prog, c, root);
    var callees := UnderTree(prog, c, root, c.trees[root]);
    assert ThreadContexts(prog, c, root) == {h} + callees;
    forall x ensures x in CallPathsOf(prog, c, {h} + callees) <==> x == [] || x in CallPathsOf(prog, c, callees) {
      assert h in {h} + callees && CallPath(prog, c, h) == [];
      if x in CallPathsOf(prog, c, callees) {
        var g :| g in callees && CallPath(prog, c, g) == x;
        assert g in {h} + callees;
      }
    }
  }
}

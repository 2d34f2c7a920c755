/** The calling-context tree as a transition system on values: what one executed basic
    block does to the shared tree, to the handle counter and to the thread that ran it. */
module CallingContext {
  import opened Options
  import opened SplayTree

  // ----- the program under observation ----------------------------------------------

  datatype Flag = ClientInterest | CallDirect | CallIndirect | Return | MemAccess
                | ThreadRootVirtual | BbStartNop

  /** What the instrumenter records about a basic block: number of instrumented
      instructions, state flags of the last one, memory operands, instruction addresses. */
  datatype Shadow = Shadow(slots: nat, endState: set<Flag>, memRefs: nat, ips: seq<nat>)

  const ROOT_KEY: nat := 0
  const ROOT_CALLER_HANDLE: nat := 1
  const FIRST_HANDLE: nat := 2
  const CONTEXT_HANDLE_MAX: nat := 16777216

  const ROOT_SHADOW := Shadow(1, {ThreadRootVirtual}, 0, [0])

  /** Shadows are addressed by key.  Key 0 is the block all thread roots share; only
      blocks with an instrumented instruction are ever instrumented. */
  ghost predicate IsProgram(prog: seq<Shadow>) {
    && |prog| > 0 && prog[ROOT_KEY] == ROOT_SHADOW
    && forall k :: 0 < k < |prog| ==>
        prog[k].slots >= 1 && |prog[k].ips| == prog[k].slots && ThreadRootVirtual !in prog[k].endState
  }

  // ----- state ----------------------------------------------------------------------

  datatype BBNode = BBNode(key: nat, parent: Option<nat>, start: nat, slots: nat) {
    function End(): nat { start + slots }

    /** `bb_node_end_ctxt` */
    function LastHandle(): int { start + slots - 1 }
  }

  /** Nodes are named by their rank of creation.  `trees[n]` indexes the callees of node n,
      `payload` gives the tree node a splay node stands for, `owner[h]` the node that
      handle h belongs to; splay nodes below `splayUsed` have been taken from their pool. */
  datatype Cct = Cct(nodes: seq<BBNode>, trees: seq<Tree<nat>>, payload: map<nat, nat>,
                     owner: seq<Option<nat>>, splayUsed: nat)
  {
    /** `global_ip_node_buff_idle_idx` */
    function Idle(): nat { |owner| }
  }

  const EMPTY_CCT := Cct([], [], map[], [None, None], 0)

  datatype Thread = Thread(root: nat, cur: nat, pre: set<Flag>, spare: nat)

  function Repeat<T>(x: T, n: nat): (s: seq<T>)
    ensures |s| == n && forall i :: 0 <= i < n ==> s[i] == x
  {
    seq(n, _ => x)
  }

  // ----- steps ----------------------------------------------------------------------

  /** `bb_node_create` with `cur_child_ctxt_start_idx`: the handles are taken from the
      shared counter; the process ends when the counter reaches the maximum. */
  function CreateNode(c: Cct, key: nat, parent: Option<nat>, slots: nat): Option<Cct> {
    if c.Idle() + slots >= CONTEXT_HANDLE_MAX then None
    else Some(c.(nodes := c.nodes + [BBNode(key, parent, c.Idle(), slots)],
                 trees := c.trees + [Leaf],
                 owner := c.owner + Repeat(Some(|c.nodes|), slots)))
  }

  datatype Started = Started(cct: Cct, thread: Thread)

  /** `pt_init`: two splay nodes (dummy and spare) and a root node with one handle. */
  function StartThread(c: Cct): Option<Started> {
    match CreateNode(c, ROOT_KEY, None, 1)
    case None => None
    case Some(c') =>
      Some(Started(c'.(splayUsed := c.splayUsed + 2),
                   Thread(|c.nodes|, |c.nodes|, {ThreadRootVirtual}, c.splayUsed + 1)))
  }

  /** `bb_node_parent_bb`; following a null pointer yields nothing. */
  function ParentOf(c: Cct, n: Option<nat>): Option<nat> {
    if n.Some? && n.value < |c.nodes| then c.nodes[n.value].parent else None
  }

  /** The node the next block is a callee of. */
  function CallerNode(c: Cct, th: Thread): Option<nat> {
    if ThreadRootVirtual in th.pre then Some(th.root)
    else if CallDirect in th.pre || CallIndirect in th.pre then Some(th.cur)
    else if Return in th.pre then
      if ParentOf(c, Some(th.cur)) == Some(th.root) then ParentOf(c, Some(th.cur))
      else ParentOf(c, ParentOf(c, Some(th.cur)))
    else ParentOf(c, Some(th.cur))
  }

  /** One executed block with key `k`: `instrument_before_bb_first_instr`.  The result is
      `None` when the process exits or when a null node would be dereferenced. */
  function BlockStep(prog: seq<Shadow>, c: Cct, th: Thread, k: nat): Option<Started>
    requires k < |prog|
  {
    var caller := CallerNode(c, th);
    if caller.None? || caller.value >= |c.trees| then None
    else EnterCallee(prog, c, th, k, caller.value)
  }

  function EnterCallee(prog: seq<Shadow>, c: Cct, th: Thread, k: nat, caller: nat): Option<Started>
    requires k < |prog| && caller < |c.trees|
  {
    var tree := Update(c.trees[caller], k, th.spare);
    if tree.id in c.payload then
      Some(Started(c.(trees := c.trees[caller := tree]),
                   th.(cur := c.payload[tree.id], pre := prog[k].endState)))
    else
      match CreateNode(c.(trees := c.trees[caller := tree]), k, Some(caller), prog[k].slots)
      case None => None
      case Some(c') =>
        Some(Started(c'.(payload := c.payload[tree.id := |c.nodes|], splayUsed := c.splayUsed + 1),
                     th.(cur := |c.nodes|, pre := prog[k].endState, spare := c.splayUsed)))
  }

  // ----- invariant ------------------------------------------------------------------

  ghost predicate IsNode(c: Cct, n: nat) {
    n < |c.nodes|
  }

  ghost predicate NodeTiled(prog: seq<Shadow>, c: Cct, i: nat)
    requires i < |c.nodes|
  {
    var n := c.nodes[i];
    && n.key < |prog| && n.slots == prog[n.key].slots && n.slots >= 1
    && n.start == (if i == 0 then FIRST_HANDLE else c.nodes[i - 1].End())
  }

  ghost predicate Owned(c: Cct, h: nat)
    requires h < c.Idle()
  {
    && c.owner[h].Some? && IsNode(c, c.owner[h].value)
    && c.nodes[c.owner[h].value].start <= h < c.nodes[c.owner[h].value].End()
  }

  /** Node ranges tile the handles from 2 up to the counter, in order of creation. */
  ghost predicate Tiled(prog: seq<Shadow>, c: Cct) {
    && c.Idle() == (if c.nodes == [] then FIRST_HANDLE else c.nodes[|c.nodes| - 1].End())
    && c.Idle() >= FIRST_HANDLE && c.owner[0] == None && c.owner[1] == None
    && (forall i :: 0 <= i < |c.nodes| ==> NodeTiled(prog, c, i))
    && (forall h :: FIRST_HANDLE <= h < c.Idle() ==> Owned(c, h))
  }

  /** Parents are older; roots are the nodes with key 0; siblings have distinct keys. */
  ghost predicate NodeRooted(c: Cct, i: nat)
    requires i < |c.nodes|
  {
    var n := c.nodes[i];
    && (n.key == ROOT_KEY <==> n.parent.None?)
    && (n.parent.Some? ==> n.parent.value < i)
  }

  ghost predicate Siblings(c: Cct, i: nat, j: nat)
    requires i < |c.nodes| && j < |c.nodes|
  {
    c.nodes[i].parent.Some? && c.nodes[i].parent == c.nodes[j].parent
  }

  ghost predicate Rooted(c: Cct) {
    && (forall i :: 0 <= i < |c.nodes| ==> NodeRooted(c, i))
    && (forall i, j :: 0 <= i < j < |c.nodes| && Siblings(c, i, j) ==> c.nodes[i].key != c.nodes[j].key)
  }

  ghost predicate IsCallee(c: Cct, p: nat, key: int, n: nat) {
    n < |c.nodes| && c.nodes[n].parent == Some(p) && c.nodes[n].key == key
  }

  ghost predicate EntryOk(c: Cct, p: nat, e: Entry<nat>) {
    e.id in c.payload && IsCallee(c, p, e.key, c.payload[e.id])
  }

  /** The splay tree of node p indexes exactly the callees of p. */
  ghost predicate TreeIndexes(c: Cct, p: nat, t: Tree<nat>) {
    && IsSearchTree(t)
    && (forall e :: e in Inorder(t) ==> EntryOk(c, p, e))
    && (forall n: nat, key: int :: IsCallee(c, p, key, n) ==> HasKey(t, key))
  }

  ghost predicate Indexed(c: Cct) {
    && |c.trees| == |c.nodes|
    && (forall p :: 0 <= p < |c.trees| ==> TreeIndexes(c, p, c.trees[p]))
    && (forall s :: s in c.payload ==> s < c.splayUsed)
  }

  ghost predicate CctInv(prog: seq<Shadow>, c: Cct) {
    IsProgram(prog) && Tiled(prog, c) && Rooted(c) && Indexed(c)
  }

  // ----- meaning of nodes and handles -----------------------------------------------

  /** The thread root above node n. */
  ghost function RootOf(c: Cct, n: nat): nat
    requires Rooted(c) && IsNode(c, n)
  {
    assert NodeRooted(c, n);
    if c.nodes[n].parent.None? then n else RootOf(c, c.nodes[n].parent.value)
  }

  /** The call path of node n: block keys from below the thread root down to n. */
  ghost function Path(c: Cct, n: nat): seq<nat>
    requires Rooted(c) && IsNode(c, n)
  {
    assert NodeRooted(c, n);
    if c.nodes[n].parent.None? then [] else Path(c, c.nodes[n].parent.value) + [c.nodes[n].key]
  }

  /** `c'` has everything `c` has: nodes and handles are never moved or taken back. */
  ghost predicate Extends(c: Cct, c': Cct) {
    && c.nodes <= c'.nodes && c.owner <= c'.owner && c.splayUsed <= c'.splayUsed
    && (forall s :: s in c.payload ==> s in c'.payload && c'.payload[s] == c.payload[s])
    && (forall s :: s in c'.payload && s !in c.payload ==> c'.payload[s] >= |c.nodes|)
  }

  lemma {:induction false} ExtendsKeepsPath(c: Cct, c': Cct, n: nat)
    requires Rooted(c) && Rooted(c') && c.nodes <= c'.nodes && IsNode(c, n)
    ensures IsNode(c', n) && RootOf(c', n) == RootOf(c, n) && Path(c', n) == Path(c, n)
  {
    assert c'.nodes[n] == c.nodes[n] && NodeRooted(c, n);
    if c.nodes[n].parent.Some? {
      ExtendsKeepsPath(c, c', c.nodes[n].parent.value);
    }
  }

  /** Canonicity of nodes: root and path determine the node. */
  lemma {:induction false} PathDeterminesNode(c: Cct, m: nat, n: nat)
    requires Rooted(c) && IsNode(c, m) && IsNode(c, n)
    requires RootOf(c, m) == RootOf(c, n) && Path(c, m) == Path(c, n)
    ensures m == n
  {
    var pm, pn := c.nodes[m].parent, c.nodes[n].parent;
    assert NodeRooted(c, m) && NodeRooted(c, n);
    if pm.Some? && pn.Some? {
      assert Path(c, m)[..|Path(c, m)| - 1] == Path(c, pm.value);
      assert Path(c, n)[..|Path(c, n)| - 1] == Path(c, pn.value);
      assert Path(c, m)[|Path(c, m)| - 1] == c.nodes[m].key;
      PathDeterminesNode(c, pm.value, pn.value);
      if m < n { assert Siblings(c, m, n); } else if n < m { assert Siblings(c, n, m); }
    }
  }

  // ----- node creation keeps the tree consistent ------------------------------------

  lemma CreateTiled(prog: seq<Shadow>, c: Cct, key: nat, parent: Option<nat>)
    requires IsProgram(prog) && Tiled(prog, c) && key < |prog|
    ensures var r := CreateNode(c, key, parent, prog[key].slots);
      r.Some? ==> Tiled(prog, r.value) && Extends(c, r.value)
  {
    var r := CreateNode(c, key, parent, prog[key].slots);
    if r.Some? {
      var c' := r.value;
      forall i | 0 <= i < |c'.nodes| ensures NodeTiled(prog, c', i) {
        if i < |c.nodes| { assert NodeTiled(prog, c, i); }
      }
      forall h | FIRST_HANDLE <= h < c'.Idle() ensures Owned(c', h) {
        if h < c.Idle() {
          assert Owned(c, h);
        } else {
          assert c'.owner[h] == Repeat(Some(|c.nodes|), prog[key].slots)[h - c.Idle()];
        }
      }
    }
  }

  lemma CreateRooted(c: Cct, key: nat, parent: Option<nat>, slots: nat)
    requires Rooted(c) && (key == ROOT_KEY <==> parent.None?)
    requires parent.Some? ==> parent.value < |c.nodes|
    requires parent.Some? ==> forall n: nat :: !IsCallee(c, parent.value, key, n)
    ensures var r := CreateNode(c, key, parent, slots); r.Some? ==> Rooted(r.value)
  {
    var r := CreateNode(c, key, parent, slots);
    if r.Some? {
      var c' := r.value;
      forall i | 0 <= i < |c'.nodes| ensures NodeRooted(c', i) {
        if i < |c.nodes| { assert NodeRooted(c, i); }
      }
      forall i, j | 0 <= i < j < |c'.nodes| && Siblings(c', i, j)
        ensures c'.nodes[i].key != c'.nodes[j].key
      {
        if j < |c.nodes| {
          assert Siblings(c, i, j);
        } else {
          assert !IsCallee(c, parent.value, key, i);
        }
      }
    }
  }

  /** `c'` is `c` with one more node, below `caller`, that splay node `spare` stands for. */
  ghost predicate Gained(c: Cct, c': Cct, key: nat, caller: nat, spare: nat) {
    && |c'.nodes| == |c.nodes| + 1 && c.nodes <= c'.nodes
    && IsCallee(c', caller, key, |c.nodes|)
    && spare !in c.payload && c'.payload == c.payload[spare := |c.nodes|]
  }

  /** A tree that gains the entry for the new node indexes it. */
  lemma GainedIndexes(c: Cct, c': Cct, t: Tree<nat>, t': Tree<nat>, key: nat, caller: nat, spare: nat)
    requires TreeIndexes(c, caller, t) && IsSearchTree(t') && Gained(c, c', key, caller, spare)
    requires forall e :: e in Inorder(t') <==> e in Inorder(t) || e == Entry(spare, key)
    ensures TreeIndexes(c', caller, t')
  {
    forall e | e in Inorder(t') ensures EntryOk(c', caller, e) {
      if e in Inorder(t) { assert EntryOk(c, caller, e); }
    }
    forall n: nat, k: int | IsCallee(c', caller, k, n) ensures HasKey(t', k) {
      if n < |c.nodes| {
        assert IsCallee(c, caller, k, n);
        var e :| e in Inorder(t) && e.key == k;
        assert e in Inorder(t');
      } else {
        assert Entry(spare, key) in Inorder(t');
      }
    }
  }

  /** The other trees are not affected. */
  lemma OthersIndexed(c: Cct, c': Cct, p: nat, t: Tree<nat>, key: nat, caller: nat, spare: nat)
    requires TreeIndexes(c, p, t) && p != caller && Gained(c, c', key, caller, spare)
    ensures TreeIndexes(c', p, t)
  {
    forall e | e in Inorder(t) ensures EntryOk(c', p, e) {
      assert EntryOk(c, p, e);
    }
    forall n: nat, k: int | IsCallee(c', p, k, n) ensures HasKey(t, k) {
      assert IsCallee(c, p, k, n);
    }
  }

  lemma LeafIndexes(c: Cct, p: nat)
    requires Rooted(c) && |c.nodes| == p + 1
    ensures TreeIndexes(c, p, Leaf)
  {
    forall n: nat, k: int ensures !IsCallee(c, p, k, n) {
      if n < |c.nodes| { assert NodeRooted(c, n); }
    }
  }

  /** Reshaping a tree does not change what it indexes. */
  lemma ReshapedIndexes(c: Cct, c': Cct, p: nat, t: Tree<nat>, t': Tree<nat>)
    requires TreeIndexes(c, p, t) && Inorder(t') == Inorder(t)
    requires c'.nodes == c.nodes && c'.payload == c.payload
    ensures TreeIndexes(c', p, t')
  {
    forall e | e in Inorder(t') ensures EntryOk(c', p, e) {
      assert EntryOk(c, p, e);
    }
    forall n: nat, k: int | IsCallee(c', p, k, n) ensures HasKey(t', k) {
      assert IsCallee(c, p, k, n);
      assert HasKey(t, k);
    }
  }

  ghost predicate SpareReady(c: Cct, spare: nat) {
    spare < c.splayUsed && spare !in c.payload
  }

  /** What the find-or-create of a callee does: the thread moves to the callee of `caller`
      with key `k`, which is found when it exists and created otherwise. */
  ghost predicate Entered(c: Cct, th: Thread, k: nat, caller: nat, post: set<Flag>, s: Started) {
    && Extends(c, s.cct)
    && IsCallee(s.cct, caller, k, s.thread.cur)
    && s.thread.root == th.root && s.thread.pre == post
    && SpareReady(s.cct, s.thread.spare)
    && (s.thread.spare == th.spare || s.thread.spare >= c.splayUsed)
    && (forall x :: x in s.cct.payload && x !in c.payload ==> x == th.spare)
    && (if exists n: nat :: IsCallee(c, caller, k, n)
        then s.cct.nodes == c.nodes && s.cct.owner == c.owner
        else s.thread.cur == |c.nodes| && |s.cct.nodes| == |c.nodes| + 1)
  }

  lemma RootEntry<N>(t: Tree<N>)
    requires t.Node?
    ensures Entry(t.id, t.key) in Inorder(t)
  {
    assert Inorder(t)[|Inorder(t.left)|] == Entry(t.id, t.key);
  }

  lemma FoundCallee(prog: seq<Shadow>, c: Cct, th: Thread, k: nat, caller: nat)
    requires CctInv(prog, c) && SpareReady(c, th.spare) && 0 < k < |prog| && caller < |c.nodes|
    requires HasKey(c.trees[caller], k)
    ensures var r := EnterCallee(prog, c, th, k, caller);
      r.Some? && CctInv(prog, r.value.cct) && Entered(c, th, k, caller, prog[k].endState, r.value)
  {
    var t := c.trees[caller];
    var t' := Update(t, k, th.spare);
    UpdateCorrect(t, k, th.spare);
    RootEntry(t');
    assert EntryOk(c, caller, Entry(t'.id, k));
    var c' := c.(trees := c.trees[caller := t']);
    assert EnterCallee(prog, c, th, k, caller)
        == Some(Started(c', th.(cur := c.payload[t'.id], pre := prog[k].endState)));
    forall p | 0 <= p < |c'.trees| ensures TreeIndexes(c', p, c'.trees[p]) {
      ReshapedIndexes(c, c', p, c.trees[p], c'.trees[p]);
    }
    SameNodes(prog, c, c');
    assert IsCallee(c, caller, k, c.payload[t'.id]);
  }

  lemma SameNodes(prog: seq<Shadow>, c: Cct, c': Cct)
    requires Tiled(prog, c) && Rooted(c) && c'.nodes == c.nodes && c'.owner == c.owner
    ensures Tiled(prog, c') && Rooted(c')
  {
    forall i | 0 <= i < |c'.nodes| ensures NodeTiled(prog, c', i) && NodeRooted(c', i) {
      assert NodeTiled(prog, c, i) && NodeRooted(c, i);
    }
    forall h | FIRST_HANDLE <= h < c'.Idle() ensures Owned(c', h) {
      assert Owned(c, h);
    }
    forall i, j | 0 <= i < j < |c'.nodes| && Siblings(c', i, j) ensures c'.nodes[i].key != c'.nodes[j].key {
      assert Siblings(c, i, j);
    }
  }

  lemma NewCallee(prog: seq<Shadow>, c: Cct, th: Thread, k: nat, caller: nat)
    requires CctInv(prog, c) && SpareReady(c, th.spare) && 0 < k < |prog| && caller < |c.nodes|
    requires !HasKey(c.trees[caller], k)
    ensures var r := EnterCallee(prog, c, th, k, caller);
      r.Some? ==> CctInv(prog, r.value.cct) && Entered(c, th, k, caller, prog[k].endState, r.value)
  {
    var t := c.trees[caller];
    var t' := Update(t, k, th.spare);
    UpdateCorrect(t, k, th.spare);
    assert TreeIndexes(c, caller, t);
    var c1 := c.(trees := c.trees[caller := t']);
    SameNodes(prog, c, c1);
    assert forall n: nat :: IsCallee(c1, caller, k, n) ==> IsCallee(c, caller, k, n);
    var r := EnterCallee(prog, c, th, k, caller);
    if r.Some? {
      var c' := r.value.cct;
      var made := CreateNode(c1, k, Some(caller), prog[k].slots).value;
      CreateTiled(prog, c1, k, Some(caller));
      CreateRooted(c1, k, Some(caller), prog[k].slots);
      SameNodes(prog, made, c');
      NewIndexed(c, c', t', k, caller, th.spare);
    }
  }

  lemma NewIndexed(c: Cct, c': Cct, t': Tree<nat>, key: nat, caller: nat, spare: nat)
    requires Indexed(c) && caller < |c.trees| && Gained(c, c', key, caller, spare) && Rooted(c')
    requires c'.trees == c.trees[caller := t'] + [Leaf] && IsSearchTree(t')
    requires forall e :: e in Inorder(t') <==> e in Inorder(c.trees[caller]) || e == Entry(spare, key)
    requires spare < c.splayUsed <= c'.splayUsed
    ensures Indexed(c')
  {
    forall p | 0 <= p < |c'.trees| ensures TreeIndexes(c', p, c'.trees[p]) {
      if p == caller {
        GainedIndexes(c, c', c.trees[p], t', key, caller, spare);
      } else if p < |c.trees| {
        OthersIndexed(c, c', p, c.trees[p], key, caller, spare);
      } else {
        LeafIndexes(c', p);
      }
    }
  }
}

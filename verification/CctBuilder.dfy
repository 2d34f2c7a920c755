/** The calling-context-tree builder as it runs: the shared tables, one thread's fields and
    its block buffer, updated in place.  Every method is proved to compute the steps of
    `CallingContext` and `BatchedRuns`. */
module CctBuilder {
  import opened Options
  import opened SplayTree
  import opened CallingContext
  import opened ContextRuns
  import opened BatchedRuns

  /** The process-wide tables. */
  class CctStore {
    var nodes: seq<BBNode>
    var trees: seq<Tree<nat>>
    var payload: map<nat, nat>
    var ipNodes: array<Option<nat>>
    var idle: nat
    var splayUsed: nat

    ghost predicate Valid()
      reads this
    {
      ipNodes.Length == CONTEXT_HANDLE_MAX && idle < CONTEXT_HANDLE_MAX
    }

    ghost function Model(): Cct
      requires Valid()
      reads this, ipNodes
    {
      Cct(nodes, trees, payload, ipNodes[..idle], splayUsed)
    }

    constructor ()
      ensures Valid() && fresh(ipNodes) && Model() == EMPTY_CCT
    {
      nodes, trees, payload, splayUsed, idle := [], [], map[], 0, FIRST_HANDLE;
      ipNodes := new Option<nat>[CONTEXT_HANDLE_MAX](_ => None);
      new;
      assert ipNodes[..idle] == [None, None];
    }

    /** `bb_node_create`: takes `num` handles and points each of them at the new node. */
    method BbNodeCreate(key: nat, parent: Option<nat>, num: nat) returns (node: Option<nat>)
      requires Valid()
      modifies this`nodes, this`trees, this`idle, ipNodes
      ensures node.None? <==> CreateNode(old(Model()), key, parent, num).None?
      ensures node.Some? ==>
        Valid() && Some(Model()) == CreateNode(old(Model()), key, parent, num) && node == Some(|old(nodes)|)
    {
      var nextStart := idle + num;
      idle := nextStart;
      if nextStart >= CONTEXT_HANDLE_MAX {
        return None;
      }
      var start := nextStart - num;
      var n := |nodes|;
      nodes := nodes + [BBNode(key, parent, start, num)];
      trees := trees + [Leaf];
      var i := 0;
      while i < num
        modifies ipNodes
        invariant 0 <= i <= num
        invariant ipNodes[..start] == old(ipNodes[..idle])
        invariant forall j :: start <= j < start + i ==> ipNodes[j] == Some(n)
      {
        ipNodes[start + i] := Some(n);
        i := i + 1;
      }
      assert ipNodes[..idle] == old(ipNodes[..idle]) + Repeat(Some(n), num);
      return Some(n);
    }

    /** Which node the next block is a callee of. */
    method NewCaller(pre: set<Flag>, root: nat, cur: nat, ghost spare: nat) returns (caller: nat)
      requires Valid() && Rooted(Model()) && ThreadInv(Model(), Thread(root, cur, pre, spare))
      ensures CallerNode(Model(), Thread(root, cur, pre, spare)) == Some(caller) && caller < |nodes|
    {
      CallerExists(Model(), Thread(root, cur, pre, spare));
      if ThreadRootVirtual in pre {
        caller := root;
      } else if CallDirect in pre || CallIndirect in pre {
        caller := cur;
      } else if Return in pre {
        if nodes[cur].parent == Some(root) {
          caller := nodes[cur].parent.value;
        } else {
          caller := nodes[nodes[cur].parent.value].parent.value;
        }
      } else {
        caller := nodes[cur].parent.value;
      }
    }

    /** Looks the callee up in the caller's splay tree and creates it when it is missing. */
    method FindOrCreateCallee(prog: seq<Shadow>, caller: nat, k: nat, th: Thread)
      returns (exited: bool, cur: nat, spare: nat)
      requires Valid() && k < |prog| && caller < |trees|
      modifies this, ipNodes
      ensures ipNodes == old(ipNodes)
      ensures exited <==> EnterCallee(prog, old(Model()), th, k, caller).None?
      ensures !exited ==>
        && Valid()
        && EnterCallee(prog, old(Model()), th, k, caller)
           == Some(Started(Model(), Thread(th.root, cur, prog[k].endState, spare)))
    {
      spare := th.spare;
      exited, cur := false, 0;
      var newRoot := Update(trees[caller], k, spare);
      ghost var c0 := Model().(trees := trees[caller := newRoot]);
      trees := trees[caller := newRoot];
      assert Model() == c0;
      if newRoot.id !in payload {
        var n := BbNodeCreate(k, Some(caller), prog[k].slots);
        if n.None? {
          return true, cur, spare;
        }
        payload := payload[newRoot.id := n.value];
        spare := splayUsed;
        splayUsed := splayUsed + 1;
      }
      cur := payload[newRoot.id];
    }
  }

  /** A consistent thread always has a caller to go on from. */
  lemma CallerExists(c: Cct, th: Thread)
    requires Rooted(c) && ThreadInv(c, th)
    ensures CallerNode(c, th).Some? && IsNode(c, CallerNode(c, th).value)
    ensures ThreadRootVirtual !in th.pre ==> c.nodes[th.cur].parent.Some? && IsNode(c, c.nodes[th.cur].parent.value)
  {
    ParentPath(c, th.cur);
    CallerIsStackTop(c, th, SomeStack(c, th), 0, {});
  }

  /** `per_thread_t`, the fields the tree builder uses. */
  class PerThread {
    var root: nat
    var cur: nat
    var preState: set<Flag>
    var spare: nat
    var childStart: nat
    var preShadow: nat
    var bbCache: array<Option<nat>>
    var cursor: nat
    var bbEnds: seq<BbEnd>
    var bbStarts: seq<(nat, nat)>

    ghost function Model(): Thread
      reads this
    {
      Thread(root, cur, preState, spare)
    }

    /** A thread at its root node, with an empty buffer */
    constructor (root: nat, spare: nat, childStart: nat)
      ensures Model() == Thread(root, root, {ThreadRootVirtual}, spare) && this.childStart == childStart
      ensures preShadow == ROOT_KEY && cursor == 0 && bbEnds == [] && bbStarts == [] && fresh(bbCache)
      ensures bbCache.Length == BUFFER_SIZE && forall i :: 0 <= i < BUFFER_SIZE ==> bbCache[i] == None
    {
      this.root, cur, this.spare, this.childStart := root, root, spare, childStart;
      preState := {ThreadRootVirtual};
      preShadow := ROOT_KEY;
      bbCache := new Option<nat>[BUFFER_SIZE](_ => None);
      cursor := 0;
      bbEnds, bbStarts := [], [];
    }

    /** `instrument_before_bb_first_instr`: one block in direct mode. */
    method BeforeBbFirstInstr(prog: seq<Shadow>, store: CctStore, k: nat) returns (exited: bool)
      requires store.Valid() && CctInv(prog, store.Model()) && ThreadInv(store.Model(), Model())
      requires 0 < k < |prog|
      modifies this, store, store.ipNodes
      ensures store.ipNodes == old(store.ipNodes) && bbCache == old(bbCache) && cursor == old(cursor)
      ensures exited <==> BlockStep(prog, old(store.Model()), old(Model()), k).None?
      ensures !exited ==>
        && store.Valid()
        && BlockStep(prog, old(store.Model()), old(Model()), k) == Some(Started(store.Model(), Model()))
        && childStart == StartOf(store.Model(), cur)
        && bbStarts == old(bbStarts) + [(prog[k].slots, prog[k].memRefs)]
    {
      CallerExists(store.Model(), Model());
      var caller := store.NewCaller(preState, root, cur, spare);
      var next, sp;
      ghost var c0, th0 := store.Model(), Model();
      exited, next, sp := store.FindOrCreateCallee(prog, caller, k, Thread(root, cur, preState, spare));
      if exited {
        return;
      }
      EnteredIsNode(prog, c0, th0, k, caller);
      spare := sp;
      cur := next;
      childStart := store.nodes[cur].start;
      preState := prog[k].endState;
      bbStarts := bbStarts + [(prog[k].slots, prog[k].memRefs)];
    }

    /** `drcctlib_get_context_handle`; none when the process ends because the block has no such slot. */
    method GetContextHandle(store: CctStore, slot: nat) returns (h: Option<nat>)
      requires store.Valid() && cur < |store.nodes|
      ensures h == if slot < store.nodes[cur].slots then Some(store.nodes[cur].start + slot) else None
    {
      if slot >= store.nodes[cur].slots {
        return None;
      }
      return Some(store.nodes[cur].start + slot);
    }

    /** `per_thread_init_stack_cache`: the very first block moves from entry 0 to entry 1. */
    method InitStackCache()
      requires bbCache.Length == BUFFER_SIZE
      modifies bbCache
      ensures bbCache[..] == (if old(bbCache[0]).Some? then old(bbCache[..])[1 := old(bbCache[0])][0 := None]
                              else old(bbCache[..]))
    {
      if bbCache[0].Some? {
        bbCache[1] := bbCache[0];
        bbCache[0] := None;
      }
    }

    /** Entry 0 is empty, the keys `ks` are in the entries from 1 on, the rest is empty. */
    ghost predicate Holds(prog: seq<Shadow>, ks: seq<nat>)
      reads this, bbCache
    {
      && bbCache.Length == BUFFER_SIZE && |ks| < BUFFER_SIZE && BlockKeys(prog, ks)
      && bbCache[0] == None
      && (forall i :: 1 <= i <= |ks| ==> bbCache[i] == Some(ks[i - 1]))
      && (forall i :: |ks| < i < BUFFER_SIZE ==> bbCache[i] == None)
    }

    /** The thread as the flush loop sees it: the previous block decides, not `preState`. */
    ghost function LoopModel(prog: seq<Shadow>, c: Cct): Flushed
      requires preShadow < |prog|
      reads this
    {
      Flushed(c, Thread(root, cur, prog[preShadow].endState, spare), preShadow, bbEnds)
    }

    /** One entry of the buffer: report the block that ends, then enter the next one. */
    method RefreshEntry(prog: seq<Shadow>, store: CctStore, k: nat) returns (exited: bool)
      requires store.Valid() && CctInv(prog, store.Model()) && 0 < k < |prog| && preShadow < |prog|
      requires ThreadInv(store.Model(), Thread(root, cur, prog[preShadow].endState, spare))
      modifies this`cur, this`spare, this`preShadow, this`bbEnds, store, store.ipNodes
      ensures store.ipNodes == old(store.ipNodes)
      ensures exited <==> FlushBlock(prog, old(LoopModel(prog, store.Model())), k).None?
      ensures !exited ==>
        && store.Valid() && CctInv(prog, store.Model()) && preShadow < |prog|
        && Some(LoopModel(prog, store.Model())) == FlushBlock(prog, old(LoopModel(prog, store.Model())), k)
        && ThreadInv(store.Model(), Thread(root, cur, prog[preShadow].endState, spare))
    {
      ghost var c0, th0 := store.Model(), Thread(root, cur, prog[preShadow].endState, spare);
      ghost var st := SomeStack(c0, th0);
      BlockKeepsThread(prog, c0, th0, st, k);
      bbEnds := bbEnds + [BbEnd(store.nodes[cur].start, prog[preShadow].slots)];
      var caller := store.NewCaller(prog[preShadow].endState, root, cur, spare);
      var next, sp;
      exited, next, sp := store.FindOrCreateCallee(prog, caller, k, Thread(root, cur, prog[preShadow].endState, spare));
      if exited {
        return;
      }
      cur, spare, preShadow := next, sp, k;
    }

    /** The thread as the loop sees it is consistent with the tree. */
    ghost predicate InTree(prog: seq<Shadow>, store: CctStore)
      reads this, store, store.ipNodes
    {
      && store.Valid() && CctInv(prog, store.Model()) && preShadow < |prog|
      && ThreadInv(store.Model(), Thread(root, cur, prog[preShadow].endState, spare))
    }

    /** The first `i` keys of the buffer have been processed and cleared. */
    ghost predicate Cleared(prog: seq<Shadow>, ks: seq<nat>, i: nat)
      reads this, bbCache
    {
      && bbCache.Length == BUFFER_SIZE && i <= |ks| < BUFFER_SIZE
      && (forall j :: 0 <= j <= i ==> bbCache[j] == None)
      && (forall j :: i < j <= |ks| ==> bbCache[j] == Some(ks[j - 1]))
      && (forall j :: |ks| < j < BUFFER_SIZE ==> bbCache[j] == None)
    }

    /** `f` with the first `i` keys flushed is what the thread and the tree are now. */
    ghost predicate Flushing(prog: seq<Shadow>, store: CctStore, ks: seq<nat>, i: nat, f: Flushed)
      reads this, bbCache, store, store.ipNodes
    {
      && InTree(prog, store) && store.ipNodes != bbCache && BlockKeys(prog, ks) && f.pre < |prog|
      && Cleared(prog, ks, i)
      && FlushBlocks(prog, f, ks[..i]) == Some(LoopModel(prog, store.Model()))
    }

    /** One round of the loop: entry `i` */
    method FlushEntry(prog: seq<Shadow>, store: CctStore, i: nat, ghost ks: seq<nat>, ghost f: Flushed) returns (exited: bool)
      requires 0 < i <= |ks| && Flushing(prog, store, ks, i - 1, f)
      modifies this`cur, this`spare, this`preShadow, this`bbEnds, bbCache, store, store.ipNodes
      ensures store.ipNodes == old(store.ipNodes)
      ensures exited <==> FlushBlocks(prog, f, ks[..i]).None?
      ensures !exited ==> Flushing(prog, store, ks, i, f)
    {
      var k := bbCache[i].value;
      assert ks[..i][..i - 1] == ks[..i - 1];
      exited := RefreshEntry(prog, store, k);
      if !exited {
        bbCache[i] := None;
      }
    }

    /** The loop ends where the keys end. */
    lemma ClearedToTheEnd(prog: seq<Shadow>, ks: seq<nat>, i: nat)
      requires Cleared(prog, ks, i) && (i + 1 < BUFFER_SIZE ==> bbCache[i + 1].None?)
      ensures ks[..i] == ks && Holds(prog, [])
    {
    }

    /** The loop of `per_thread_refresh_bb_cache`. */
    method FlushEntries(prog: seq<Shadow>, store: CctStore, ghost ks: seq<nat>) returns (exited: bool)
      requires InTree(prog, store) && Holds(prog, ks) && store.ipNodes != bbCache
      modifies this`cur, this`spare, this`preShadow, this`bbEnds, bbCache, store, store.ipNodes
      ensures store.ipNodes == old(store.ipNodes)
      ensures exited <==> FlushBlocks(prog, old(LoopModel(prog, store.Model())), ks).None?
      ensures !exited ==>
        && InTree(prog, store) && Holds(prog, [])
        && FlushBlocks(prog, old(LoopModel(prog, store.Model())), ks) == Some(LoopModel(prog, store.Model()))
    {
      exited := false;
      ghost var f := LoopModel(prog, store.Model());
      var i := 1;
      while i < BUFFER_SIZE
        invariant 1 <= i <= |ks| + 1 && store.ipNodes == old(store.ipNodes)
        invariant Flushing(prog, store, ks, i - 1, f)
      {
        if bbCache[i].None? {
          break;
        }
        exited := FlushEntry(prog, store, i, ks, f);
        if exited {
          FlushStops(prog, f, ks, i);
          return;
        }
        i := i + 1;
      }
      ClearedToTheEnd(prog, ks, i - 1);
    }

    /** `per_thread_refresh_bb_cache`: empties the buffer. */
    method RefreshBbCache(prog: seq<Shadow>, store: CctStore, ghost ks: seq<nat>) returns (exited: bool)
      requires InTree(prog, store) && preState == prog[preShadow].endState
      requires Holds(prog, ks) && store.ipNodes != bbCache
      modifies this, bbCache, store, store.ipNodes
      ensures store.ipNodes == old(store.ipNodes) && bbCache == old(bbCache) && bbStarts == old(bbStarts)
      ensures exited <==> FlushBlocks(prog, old(LoopModel(prog, store.Model())), ks).None?
      ensures !exited ==>
        && InTree(prog, store) && Holds(prog, [])
        && FlushBlocks(prog, old(LoopModel(prog, store.Model())), ks) == Some(LoopModel(prog, store.Model()))
        && preState == prog[preShadow].endState
        && cursor == (if ks == [] then old(cursor) else 1)
        && (ks != [] ==> childStart == StartOf(store.Model(), cur))
    {
      if bbCache[1].None? {
        return false;
      }
      exited := FlushEntries(prog, store, ks);
      if exited {
        return;
      }
      childStart := store.nodes[cur].start;
      preState := prog[preShadow].endState;
      cursor := 1;
    }

    /** The thread and its buffer, with keys `ks` pending. */
    ghost predicate Stands(prog: seq<Shadow>, store: CctStore, ks: seq<nat>)
      reads this, bbCache, store, store.ipNodes
    {
      && InTree(prog, store) && Holds(prog, ks) && store.ipNodes != bbCache
      && preState == prog[preShadow].endState && |ks| <= BUFFER_SIZE - 2
      && cursor == (if ks == [] && cursor == 0 then 0 else 1 + |ks|)
    }

    ghost function BufferModel(ks: seq<nat>): Buffer
      reads this
    {
      Buffer(preShadow, ks, cursor == 0, bbEnds)
    }

    /** The inline stub in front of every block: append, and flush when the entry was the
        first or the last one. */
    method AppendBlock(prog: seq<Shadow>, store: CctStore, k: nat, ghost ks: seq<nat>) returns (exited: bool)
      requires Stands(prog, store, ks) && 0 < k < |prog|
      modifies this, bbCache, store, store.ipNodes
      ensures store.ipNodes == old(store.ipNodes) && bbCache == old(bbCache)
      ensures var flush := old(BufferModel(ks)).FlushAfterAppend();
        var r := FlushBlocks(prog, old(LoopModel(prog, store.Model())), if flush then ks + [k] else []);
        && (exited <==> r.None?)
        && (!exited ==>
              && Stands(prog, store, if flush then [] else ks + [k])
              && Some(LoopModel(prog, store.Model())) == r
              && cursor == (if flush then 1 else old(cursor) + 1))
    {
      bbCache[cursor] := Some(k);
      if cursor + 1 == 1 || cursor + 1 == BUFFER_SIZE {
        InitStackCache();
        assert Holds(prog, ks + [k]);
        exited := RefreshBbCache(prog, store, ks + [k]);
      } else {
        cursor := cursor + 1;
        exited := false;
      }
    }

    /** `refresh_per_thread_cct_tree`: a flush requested at any other moment. */
    method Refresh(prog: seq<Shadow>, store: CctStore, ghost ks: seq<nat>) returns (exited: bool)
      requires Stands(prog, store, ks)
      modifies this, bbCache, store, store.ipNodes
      ensures store.ipNodes == old(store.ipNodes) && bbCache == old(bbCache)
      ensures var r := FlushBlocks(prog, old(LoopModel(prog, store.Model())), ks);
        && (exited <==> r.None?)
        && (!exited ==> Stands(prog, store, []) && Some(LoopModel(prog, store.Model())) == r
                        && cursor == (if ks == [] then old(cursor) else 1))
    {
      InitStackCache();
      exited := RefreshBbCache(prog, store, ks);
    }

    /** `per_thread_end_bb_cache_refresh`, after the last refresh: the last block ends. */
    method EndThread(prog: seq<Shadow>, store: CctStore)
      requires Stands(prog, store, [])
      modifies this`bbEnds
      ensures bbEnds == old(bbEnds) + [BbEnd(StartOf(store.Model(), cur), prog[preShadow].slots)]
    {
      bbEnds := bbEnds + [BbEnd(store.nodes[cur].start, prog[preShadow].slots)];
    }
  }

  /** `pt_init`; null when the process ends because there is no handle left for the root node. */
  method PtInit(store: CctStore) returns (pt: PerThread?)
    requires store.Valid()
    modifies store, store.ipNodes
    ensures store.ipNodes == old(store.ipNodes)
    ensures pt == null <==> StartThread(old(store.Model())).None?
    ensures pt != null ==>
      && fresh(pt) && fresh(pt.bbCache) && store.Valid()
      && StartThread(old(store.Model())) == Some(Started(store.Model(), pt.Model()))
      && pt.childStart == StartOf(store.Model(), pt.root)
      && pt.preShadow == ROOT_KEY && pt.cursor == 0 && pt.bbEnds == [] && pt.bbStarts == []
      && pt.bbCache.Length == BUFFER_SIZE && forall i :: 0 <= i < BUFFER_SIZE ==> pt.bbCache[i] == None
  {
    var s := store.splayUsed;
    var n := store.BbNodeCreate(ROOT_KEY, None, 1);
    if n.None? {
      return null;
    }
    store.splayUsed := s + 2;
    pt := new PerThread(n.value, s + 1, store.nodes[n.value].start);
  }

  ghost function SomeStack(c: Cct, th: Thread): Stack
    requires Rooted(c) && ThreadInv(c, th)
    ensures Refines(c, th, SomeStack(c, th))
  {
    ParentPath(c, th.cur);
    var path := Path(c, th.cur);
    if path == [] then Stack([], None, th.pre) else Stack(path[..|path| - 1], Some(path[|path| - 1]), th.pre)
  }

  /** Once a flush has ended the process, it has ended. */
  lemma {:induction false} FlushStops(prog: seq<Shadow>, f: Flushed, ks: seq<nat>, i: nat)
    requires f.pre < |prog| && BlockKeys(prog, ks) && i <= |ks|
    requires FlushBlocks(prog, f, ks[..i]).None?
    ensures FlushBlocks(prog, f, ks).None?
    decreases |ks|
  {
    if i == |ks| {
      assert ks[..i] == ks;
    } else {
      assert ks[..|ks| - 1][..i] == ks[..i];
      FlushStops(prog, f, ks[..|ks| - 1], i);
    }
  }

  lemma EnteredIsNode(prog: seq<Shadow>, c: Cct, th: Thread, k: nat, caller: nat)
    requires CctInv(prog, c) && SpareReady(c, th.spare) && 0 < k < |prog| && caller < |c.nodes|
    ensures var r := EnterCallee(prog, c, th, k, caller);
      r.Some? ==> r.value.thread.cur < |r.value.cct.nodes| && CctInv(prog, r.value.cct)
  {
    if HasKey(c.trees[caller], k) {
      FoundCallee(prog, c, th, k, caller);
    } else {
      NewCallee(prog, c, th, k, caller);
    }
  }
}

/** What a thread exports over its life: whole-tree exports and calls of the custom builder share one
    node counter. */
module HpcExport {
  import opened CallingContext
  import opened HpcTrie
  import opened HpcPaths
  import opened HpcBuild
  import opened CctExport

  /** `per_thread_t`; `custom` is `tlsHPCRunCCTRoot` with all below it.  `inputs` are the inputs of all
      calls of the builder so far, `strays` the nodes the counter has counted elsewhere since it last
      was at zero. */
  class PerThread {
    const metrics: nat
    var nodeCount: nat
    var custom: Trie?
    ghost var inputs: seq<Entry>
    ghost var strays: nat

    ghost predicate Valid(ids: IdSource)
      reads this, ids, custom
    {
      if custom == null then nodeCount == strays && inputs == []
      else
        && custom.Valid(ids) && custom.metrics == metrics && BuiltFrom(custom.nodes, inputs, metrics)
        && nodeCount == |custom.nodes| + strays
    }

    /** `event_thread_start` */
    constructor (metrics: nat, ids: IdSource)
      ensures Valid(ids) && this.metrics == metrics && custom == null && nodeCount == 0
    {
      this.metrics := metrics;
      nodeCount, custom := 0, null;
      inputs, strays := [], 0;
    }

    /** `write_thread_all_cct_hpcrun_format`; `count` is what is written in front of the nodes.  It is
        the number of nodes exactly if nothing was counted before. */
    method WriteAllCct(prog: seq<Shadow>, c: Cct, root: nat, ids: IdSource) returns (trie: Trie, count: nat)
      requires Valid(ids) && CctInv(prog, c) && IsNode(c, root) && c.nodes[root].parent.None?
      modifies this`nodeCount, this`strays, ids
      ensures Valid(ids) && fresh(trie) && trie.Valid(ids)
      ensures AreContexts(c, ThreadContexts(prog, c, root))
      ensures Paths(trie.nodes) == CallPathsOf(prog, c, ThreadContexts(prog, c, root))
      ensures count == nodeCount == old(nodeCount) + |trie.nodes| && strays == old(strays) + |trie.nodes|
      ensures count == |trie.nodes| <==> old(nodeCount) == 0
    {
      trie := ExportThread(prog, c, root, metrics, nodeCount, ids);
      CountPaths(trie.nodes);
      count := trie.nodeCount;
      nodeCount := count;
      strays := strays + |trie.nodes|;
    }

    /** `build_thread_custom_cct_hpurun_format`; false when the process ends.  The trie holds the inputs
        of all calls.  After the first call all signs are right; after a call that began with right
        signs, some are wrong. */
    method BuildCustom(prog: seq<Shadow>, c: Cct, runs: seq<RunNode>, ids: IdSource) returns (ok: bool)
      requires Valid(ids) && CctInv(prog, c)
      modifies this`nodeCount, this`custom, this`inputs, this`strays, custom, ids
      ensures ok == AllAcceptable(prog, c, runs, metrics)
      ensures ok ==> Valid(ids) && custom != null && (old(custom) != null ==> custom == old(custom))
      ensures ok ==> inputs == old(inputs) + Entries(prog, c, runs)
      ensures ok ==> strays == if old(custom) == null then 0 else old(strays)
      ensures ok && old(custom) == null ==> fresh(custom) && AllSigned(custom.nodes)
      ensures ok && old(custom) != null && old(AllSigned(custom.nodes)) ==> !AllSigned(custom.nodes)
    {
      if custom == null {
        ok := BuildFirst(prog, c, runs, ids);
      } else {
        ok := BuildMore(prog, c, runs, ids);
      }
    }

    method BuildFirst(prog: seq<Shadow>, c: Cct, runs: seq<RunNode>, ids: IdSource) returns (ok: bool)
      requires Valid(ids) && CctInv(prog, c) && custom == null
      modifies this`nodeCount, this`custom, this`inputs, this`strays, ids
      ensures ok == AllAcceptable(prog, c, runs, metrics)
      ensures ok ==> Valid(ids) && custom != null && fresh(custom) && strays == 0
      ensures ok ==> inputs == Entries(prog, c, runs) && AllSigned(custom.nodes)
    {
      var trie;
      ok, trie := BuildCustomCct(prog, c, runs, metrics, ids);
      if ok {
        custom, nodeCount := trie, trie.nodeCount;
        inputs, strays := Entries(prog, c, runs), 0;
      }
    }

    method BuildMore(prog: seq<Shadow>, c: Cct, runs: seq<RunNode>, ids: IdSource) returns (ok: bool)
      requires Valid(ids) && CctInv(prog, c) && custom != null
      modifies this`nodeCount, this`inputs, custom, ids
      ensures ok == AllAcceptable(prog, c, runs, metrics)
      ensures ok ==> Valid(ids) && inputs == old(inputs) + Entries(prog, c, runs)
      ensures ok && old(AllSigned(custom.nodes)) ==> !AllSigned(custom.nodes)
    {
      custom.Resume(nodeCount, ids);
      ok := BuildOn(prog, c, custom, runs, ids, inputs);
      if ok {
        nodeCount := custom.nodeCount;
        inputs := inputs + Entries(prog, c, runs);
      }
    }

    /** `write_thread_custom_cct_hpurun_format`: the counter written in front of the custom trie is its
        number of nodes exactly if no whole tree was exported since it was begun. */
    method CustomCount(ids: IdSource) returns (count: nat)
      requires Valid(ids) && custom != null
      ensures count == |Prefixes(inputs)| + strays
      ensures count == |custom.nodes| <==> strays == 0
    {
      CountPaths(custom.nodes);
      count := nodeCount;
    }
  }
}

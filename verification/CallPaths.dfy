/** Walking from a context handle to the thread root: full call paths, instruction
    addresses, and the comparison of call paths. */
module CallPaths {
  import opened Options
  import opened CallingContext
  import opened ContextRuns

  /** `ctxt_hndl_is_valid` */
  predicate IsValidHandle(c: Cct, h: int) {
    ROOT_CALLER_HANDLE <= h < c.Idle()
  }

  /** A handle of some node: valid and not the shared pseudo-handle above all thread roots. */
  ghost predicate IsContext(prog: seq<Shadow>, c: Cct, h: int) {
    CctInv(prog, c) && FIRST_HANDLE <= h < c.Idle()
  }

  /** `bb_node_caller_ctxt_hndl` of the node a handle belongs to: caller handles strictly
      decrease, so every walk upwards ends at handle 1. */
  function CallerHandle(prog: seq<Shadow>, c: Cct, h: nat): (r: nat)
    requires IsContext(prog, c, h)
    ensures ROOT_CALLER_HANDLE <= r < h
  {
    assert Owned(c, h);
    var n := c.owner[h].value;
    assert NodeTiled(prog, c, n) && NodeRooted(c, n);
    match c.nodes[n].parent
    case None => ROOT_CALLER_HANDLE
    case Some(p) =>
      assert NodeTiled(prog, c, p);
      RangesAscend(prog, c, p, n);
      c.nodes[p].LastHandle()
  }

  /** `drcctlib_get_ctxt_hndl_pc` */
  function HandlePc(prog: seq<Shadow>, c: Cct, h: nat): nat
    requires CctInv(prog, c) && IsValidHandle(c, h)
  {
    if h == ROOT_CALLER_HANDLE then 0
    else
      assert Owned(c, h);
      var n := c.nodes[c.owner[h].value];
      assert NodeTiled(prog, c, c.owner[h].value);
      if n.key == ROOT_KEY then 0 else prog[n.key].ips[h - n.start]
  }

  /** `drcctlib_have_same_call_path` */
  function HaveSameCallPath(prog: seq<Shadow>, c: Cct, h1: nat, h2: nat): bool
    requires CctInv(prog, c) && IsValidHandle(c, h1) && IsValidHandle(c, h2)
    decreases h1
  {
    if h1 == h2 then true
    else if h1 == ROOT_CALLER_HANDLE || h2 == ROOT_CALLER_HANDLE then false
    else HaveSameCallPath(prog, c, CallerHandle(prog, c, h1), CallerHandle(prog, c, h2))
         && HandlePc(prog, c, h1) == HandlePc(prog, c, h2)
  }

  // ----- reference: the calling addresses of a path -----------------------------------

  /** Addresses from the innermost instruction outwards: slot `slot` of the last block of the
      path, then the last instrumented instruction of every block before it. */
  function PathIps(prog: seq<Shadow>, path: seq<nat>, slot: nat): seq<nat> {
    if path == [] then []
    else
      var k := path[|path| - 1];
      var outer := path[..|path| - 1];
      [IpAt(prog, k, slot)] + PathIps(prog, outer, if outer == [] then 0 else LastSlot(prog, outer[|outer| - 1]))
  }

  function IpAt(prog: seq<Shadow>, k: nat, slot: nat): nat {
    if k < |prog| && slot < |prog[k].ips| then prog[k].ips[slot] else 0
  }

  function LastSlot(prog: seq<Shadow>, k: nat): nat {
    if k < |prog| && prog[k].slots > 0 then prog[k].slots - 1 else 0
  }

  /** The addresses a handle stands for. */
  ghost function ContextIps(prog: seq<Shadow>, c: Cct, h: nat): seq<nat>
    requires IsContext(prog, c, h)
  {
    assert Owned(c, h);
    PathIps(prog, Path(c, c.owner[h].value), h - c.nodes[c.owner[h].value].start)
  }

  lemma PathIpsSnoc(prog: seq<Shadow>, outer: seq<nat>, k: nat, slot: nat)
    ensures PathIps(prog, outer + [k], slot)
         == [IpAt(prog, k, slot)] + PathIps(prog, outer, if outer == [] then 0 else LastSlot(prog, outer[|outer| - 1]))
  {
    assert (outer + [k])[..|outer + [k]| - 1] == outer;
  }

  /** The caller's handle is the last instruction of the parent node. */
  lemma CallerContext(prog: seq<Shadow>, c: Cct, h: nat)
    requires IsContext(prog, c, h)
    ensures Owned(c, h)
    ensures var n := c.owner[h].value;
      && (c.nodes[n].key == ROOT_KEY <==> c.nodes[n].parent.None?)
      && (c.nodes[n].parent.None? ==> CallerHandle(prog, c, h) == ROOT_CALLER_HANDLE && Path(c, n) == [])
      && (c.nodes[n].parent.Some? ==>
            var p := c.nodes[n].parent.value;
            && IsNode(c, p) && FIRST_HANDLE <= CallerHandle(prog, c, h) < c.Idle()
            && Owned(c, CallerHandle(prog, c, h)) && c.owner[CallerHandle(prog, c, h)] == Some(p)
            && CallerHandle(prog, c, h) - c.nodes[p].start == c.nodes[p].slots - 1 == LastSlot(prog, c.nodes[p].key)
            && Path(c, n) == Path(c, p) + [c.nodes[n].key] && RootOf(c, p) == RootOf(c, n)
            && (Path(c, p) != [] ==> Path(c, p)[|Path(c, p)| - 1] == c.nodes[p].key)
            && HandlePc(prog, c, h) == IpAt(prog, c.nodes[n].key, h - c.nodes[n].start))
  {
    assert Owned(c, h);
    var n := c.owner[h].value;
    assert NodeTiled(prog, c, n) && NodeRooted(c, n);
    if c.nodes[n].parent.Some? {
      var p := c.nodes[n].parent.value;
      assert NodeTiled(prog, c, p) && NodeRooted(c, p);
      OwnerOfRange(prog, c, p, c.nodes[p].LastHandle());
      assert Owned(c, c.nodes[p].LastHandle());
    }
  }

  /** One step of the walk in terms of addresses. */
  lemma ContextIpsStep(prog: seq<Shadow>, c: Cct, h: nat)
    requires IsContext(prog, c, h)
    ensures Owned(c, h)
    ensures c.nodes[c.owner[h].value].key == ROOT_KEY ==>
      && ContextIps(prog, c, h) == [] && CallerHandle(prog, c, h) == ROOT_CALLER_HANDLE
    ensures c.nodes[c.owner[h].value].key != ROOT_KEY ==>
      && CallerHandle(prog, c, h) >= FIRST_HANDLE
      && ContextIps(prog, c, h) == [HandlePc(prog, c, h)] + ContextIps(prog, c, CallerHandle(prog, c, h))
  {
    CallerContext(prog, c, h);
    var n := c.owner[h].value;
    if c.nodes[n].key != ROOT_KEY {
      PathIpsSnoc(prog, Path(c, c.nodes[n].parent.value), c.nodes[n].key, h - c.nodes[n].start);
    }
  }

  /** What handle `slot` of a node stands for */
  lemma HandleOfNode(prog: seq<Shadow>, c: Cct, n: nat, slot: nat)
    requires CctInv(prog, c) && IsNode(c, n) && slot < c.nodes[n].slots
    ensures var h, node := c.nodes[n].start + slot, c.nodes[n];
      && IsContext(prog, c, h) && c.owner[h] == Some(n) && node.key < |prog| && node.slots == prog[node.key].slots
      && ContextIps(prog, c, h) == PathIps(prog, Path(c, n), slot)
      && (node.key == ROOT_KEY ==> node.slots == 1 && HandlePc(prog, c, h) == 0)
      && (node.key != ROOT_KEY ==> node.slots == |prog[node.key].ips| && HandlePc(prog, c, h) == prog[node.key].ips[slot])
  {
    OwnerOfRange(prog, c, n, c.nodes[n].start + slot);
    assert NodeTiled(prog, c, n);
  }

  lemma LastKeyOfPath(c: Cct, n: nat)
    requires Rooted(c) && IsNode(c, n)
    ensures Path(c, n) == [] <==> c.nodes[n].key == ROOT_KEY
    ensures Path(c, n) != [] ==> Path(c, n)[|Path(c, n)| - 1] == c.nodes[n].key
  {
    assert NodeRooted(c, n);
  }

  /** The node a thread is at, in terms of its blocks */
  lemma {:induction false} CurrentNode(prog: seq<Shadow>, es: seq<Event>, t: nat)
    requires IsProgram(prog) && Run(prog, es).Some? && t < |Run(prog, es).value.threads|
    ensures var s := Run(prog, es).value; var st := StackAfter(prog, es, t);
      && SystemInv(prog, s) && IsNode(s.cct, s.threads[t].cur)
      && Path(s.cct, s.threads[t].cur) == st.CallPath()
      && RootOf(s.cct, s.threads[t].cur) == s.threads[t].root
      && s.cct.nodes[s.threads[t].cur].key == match st.cur { case None => ROOT_KEY case Some(k) => k }
      && (st.cur.Some? ==> st.cur.value != ROOT_KEY)
  {
    RunRefinesStacks(prog, es);
    var s := Run(prog, es).value;
    assert Refines(s.cct, s.threads[t], StackAfter(prog, es, t)) && ThreadInv(s.cct, s.threads[t]);
    LastKeyOfPath(s.cct, s.threads[t].cur);
  }

  /** The handle of instruction `slot` of the block a thread is in belongs to the node the thread is
      at.  It stands for that instruction, called through the last instruction of every block on the
      thread's stack. */
  lemma {:induction false} CurrentContext(prog: seq<Shadow>, es: seq<Event>, t: nat, slot: nat)
    requires IsProgram(prog) && Run(prog, es).Some? && t < |Run(prog, es).value.threads|
    requires slot < CurrentSlots(Run(prog, es).value, t)
    ensures var s := Run(prog, es).value;
      var h, st := CurrentHandle(s, t, slot), StackAfter(prog, es, t);
      && IsContext(prog, s.cct, h) && s.cct.owner[h] == Some(s.threads[t].cur)
      && ContextIps(prog, s.cct, h) == PathIps(prog, st.CallPath(), slot)
      && match st.cur
         case None => CurrentSlots(s, t) == 1 && HandlePc(prog, s.cct, h) == 0
         case Some(k) =>
           && k < |prog| && CurrentSlots(s, t) == prog[k].slots == |prog[k].ips|
           && HandlePc(prog, s.cct, h) == prog[k].ips[slot]
  {
    CurrentNode(prog, es, t);
    HandleOfNode(prog, Run(prog, es).value.cct, Run(prog, es).value.threads[t].cur, slot);
  }

  /** The caller of any instruction of a node is the last instruction of the node above. */
  lemma CallerOfNode(prog: seq<Shadow>, c: Cct, n: nat, p: nat, slot: nat)
    requires CctInv(prog, c) && IsNode(c, n) && IsNode(c, p) && slot < c.nodes[n].slots
    requires RootOf(c, n) == RootOf(c, p) && Path(c, n) == Path(c, p) + [c.nodes[n].key]
    ensures IsContext(prog, c, c.nodes[n].start + slot)
    ensures CallerHandle(prog, c, c.nodes[n].start + slot) == c.nodes[p].start + c.nodes[p].slots - 1
  {
    HandleOfNode(prog, c, n, slot);
    CallerContext(prog, c, c.nodes[n].start + slot);
    var q := c.nodes[n].parent.value;
    assert Path(c, n)[..|Path(c, n)| - 1] == Path(c, q) == Path(c, p);
    PathDeterminesNode(c, q, p);
  }

  /** `n` is below `p`, a node of block `k0`. */
  ghost predicate CalledFrom(prog: seq<Shadow>, c: Cct, n: nat, p: nat, k0: nat) {
    && CctInv(prog, c) && IsNode(c, p) && IsNode(c, n) && k0 < |prog| && c.nodes[p].slots == prog[k0].slots >= 1
    && RootOf(c, n) == RootOf(c, p) && Path(c, n) == Path(c, p) + [c.nodes[n].key]
  }

  /** The caller of every instruction of `n` is the last instruction of `k0` at `p`. */
  ghost predicate ThroughLastSlot(prog: seq<Shadow>, c: Cct, n: nat, p: nat, k0: nat) {
    && IsNode(c, p) && IsNode(c, n) && k0 < |prog|
    && forall h: nat :: c.nodes[n].start <= h < c.nodes[n].start + c.nodes[n].slots ==>
         IsContext(prog, c, h) && CallerHandle(prog, c, h) == c.nodes[p].start + prog[k0].slots - 1
  }

  lemma CalledThroughLast(prog: seq<Shadow>, c: Cct, n: nat, p: nat, k0: nat)
    requires CalledFrom(prog, c, n, p, k0)
    ensures ThroughLastSlot(prog, c, n, p, k0)
  {
    forall h: nat | c.nodes[n].start <= h < c.nodes[n].start + c.nodes[n].slots
      ensures IsContext(prog, c, h) && CallerHandle(prog, c, h) == c.nodes[p].start + prog[k0].slots - 1
    {
      CallerOfNode(prog, c, n, p, h - c.nodes[n].start);
    }
  }

  /** A call goes through the last instruction of the calling block: after `k0`, which calls, and the
      block `k` it calls. */
  lemma {:induction false} CallThroughLastSlot(prog: seq<Shadow>, es: seq<Event>, t: nat, k0: nat, k: nat)
    requires IsProgram(prog) && 0 < k0 < |prog| && 0 < k < |prog|
    requires CallDirect in prog[k0].endState || CallIndirect in prog[k0].endState
    requires Run(prog, es + [Block(t, k0)]).Some? && Run(prog, es + [Block(t, k0)] + [Block(t, k)]).Some?
    requires t < |Run(prog, es + [Block(t, k0)]).value.threads|
    requires t < |Run(prog, es + [Block(t, k0)] + [Block(t, k)]).value.threads|
    ensures var s, s' := Run(prog, es + [Block(t, k0)]).value, Run(prog, es + [Block(t, k0)] + [Block(t, k)]).value;
      ThroughLastSlot(prog, s'.cct, s'.threads[t].cur, s.threads[t].cur, k0)
  {
    var es1, es2 := es + [Block(t, k0)], es + [Block(t, k0)] + [Block(t, k)];
    assert es1[..|es|] == es && es2[..|es1|] == es1;
    CurrentNode(prog, es1, t);
    CurrentNode(prog, es2, t);
    NodeOfEarlier(prog, es1, [Block(t, k)], t);
    var s, s' := Run(prog, es1).value, Run(prog, es2).value;
    assert NodeTiled(prog, s.cct, s.threads[t].cur);
    CalledThroughLast(prog, s'.cct, s'.threads[t].cur, s.threads[t].cur, k0);
  }

  /** The comparison is right: on contexts it holds exactly when the full vectors of calling
      addresses are equal. */
  lemma {:induction false} SameCallPathIsEqualIps(prog: seq<Shadow>, c: Cct, h1: nat, h2: nat)
    requires IsContext(prog, c, h1) && IsContext(prog, c, h2)
    ensures HaveSameCallPath(prog, c, h1, h2) <==> ContextIps(prog, c, h1) == ContextIps(prog, c, h2)
    decreases h1
  {
    ContextIpsStep(prog, c, h1);
    ContextIpsStep(prog, c, h2);
    var p1, p2 := CallerHandle(prog, c, h1), CallerHandle(prog, c, h2);
    if p1 >= FIRST_HANDLE && p2 >= FIRST_HANDLE {
      SameCallPathIsEqualIps(prog, c, p1, p2);
      var v1, v2 := ContextIps(prog, c, h1), ContextIps(prog, c, h2);
      if v1 == v2 {
        assert v1[0] == HandlePc(prog, c, h1) && v1[1..] == ContextIps(prog, c, p1);
        assert v2[0] == HandlePc(prog, c, h2) && v2[1..] == ContextIps(prog, c, p2);
      }
    }
  }

  /** The vector of addresses; or the process exits, on an invalid handle; or null is dereferenced:
      handle 1 is valid, but has no node. */
  datatype IpVector = Ips(list: seq<nat>) | Exits | Faults

  /** `drcctlib_priv_share_get_full_calling_ip_vector` */
  method GetFullCallingIpVector(prog: seq<Shadow>, c: Cct, h: nat) returns (r: IpVector)
    requires CctInv(prog, c)
    ensures r.Exits? <==> !IsValidHandle(c, h)
    ensures r.Faults? <==> h == ROOT_CALLER_HANDLE
    ensures IsContext(prog, c, h) ==> r == Ips(ContextIps(prog, c, h))
  {
    if !IsValidHandle(c, h) {
      return Exits;
    }
    if c.owner[h].None? {
      assert h >= FIRST_HANDLE ==> Owned(c, h);
      return Faults;
    }
    var ips: seq<nat> := [];
    var cur := h;
    while true
      invariant FIRST_HANDLE <= cur < c.Idle()
      invariant ContextIps(prog, c, h) == ips + ContextIps(prog, c, cur)
      decreases cur
    {
      ContextIpsStep(prog, c, cur);
      var n := c.nodes[c.owner[cur].value];
      if n.key == ROOT_KEY {
        assert ips + [] == ips;
        break;
      }
      assert NodeTiled(prog, c, c.owner[cur].value);
      ips := ips + [prog[n.key].ips[cur - n.start]];
      cur := CallerHandle(prog, c, cur);
    }
    return Ips(ips);
  }

  // ----- the list of contexts ---------------------------------------------------------

  /** All contexts from a handle up to handle 1. */
  ghost function Ancestors(prog: seq<Shadow>, c: Cct, h: nat): seq<nat>
    requires CctInv(prog, c) && IsValidHandle(c, h)
  {
    if h == ROOT_CALLER_HANDLE then [h] else [h] + Ancestors(prog, c, CallerHandle(prog, c, h))
  }

  /** `drcctlib_get_cct`: the list of contexts, cut off after `maxDepth` callers unless that
      is negative. */
  method GetCct(prog: seq<Shadow>, c: Cct, h: nat, maxDepth: int) returns (list: Option<seq<nat>>)
    requires CctInv(prog, c)
    ensures list.None? <==> !IsValidHandle(c, h)
    ensures IsValidHandle(c, h) ==>
      var all := Ancestors(prog, c, h);
      list == Some(if maxDepth < 0 || maxDepth + 1 >= |all| then all else all[..maxDepth + 1])
  {
    if !IsValidHandle(c, h) {
      return None;
    }
    var getAll := maxDepth < 0;
    var ctxts, next, depth := [h], h, 0;
    while true
      invariant 0 <= depth && IsValidHandle(c, next) && |ctxts| == depth + 1
      invariant getAll || depth <= maxDepth
      invariant Ancestors(prog, c, h) == ctxts + Ancestors(prog, c, next)[1..]
      invariant Ancestors(prog, c, next) != []
      decreases next
    {
      if next == ROOT_CALLER_HANDLE {
        assert ctxts + [] == ctxts;
        break;
      }
      if !getAll && depth >= maxDepth {
        assert Ancestors(prog, c, h)[..|ctxts|] == ctxts;
        break;
      }
      next := CallerHandle(prog, c, next);
      ctxts := ctxts + [next];
      depth := depth + 1;
    }
    return Some(ctxts);
  }

  /** The context `i` callers up is of the same thread and stands for a prefix of the path. */
  ghost predicate IsAncestor(prog: seq<Shadow>, c: Cct, h: nat, a: nat, i: nat)
    requires IsContext(prog, c, h)
  {
    assert Owned(c, h);
    var path := Path(c, c.owner[h].value);
    && FIRST_HANDLE <= a < c.Idle() && Owned(c, a) && i <= |path|
    && RootOf(c, c.owner[a].value) == RootOf(c, c.owner[h].value) && Path(c, c.owner[a].value) == path[..|path| - i]
  }

  lemma AncestorOfCaller(prog: seq<Shadow>, c: Cct, h: nat, a: nat, i: nat)
    requires IsContext(prog, c, h) && CallerHandle(prog, c, h) >= FIRST_HANDLE
    requires IsAncestor(prog, c, CallerHandle(prog, c, h), a, i)
    ensures IsAncestor(prog, c, h, a, i + 1)
  {
    CallerContext(prog, c, h);
    var n, m := c.owner[h].value, c.owner[CallerHandle(prog, c, h)].value;
    assert Path(c, n)[..|Path(c, n)| - (i + 1)] == Path(c, m)[..|Path(c, m)| - i];
  }

  /** The full list has one entry per block of the call path, plus the thread root and the
      shared handle 1 that ends it; handles strictly decrease along it. */
  lemma {:induction false} AncestorsFollowPath(prog: seq<Shadow>, c: Cct, h: nat)
    requires IsContext(prog, c, h)
    ensures Owned(c, h)
    ensures var all := Ancestors(prog, c, h);
      && |all| == |Path(c, c.owner[h].value)| + 2
      && all[|all| - 1] == ROOT_CALLER_HANDLE
      && (forall i, j :: 0 <= i < j < |all| ==> all[i] > all[j])
      && (forall i :: 0 <= i < |all| - 1 ==> IsAncestor(prog, c, h, all[i], i))
    decreases h
  {
    CallerContext(prog, c, h);
    var n, p, all := c.owner[h].value, CallerHandle(prog, c, h), Ancestors(prog, c, h);
    assert all == [h] + Ancestors(prog, c, p);
    assert Path(c, n)[..|Path(c, n)|] == Path(c, n);
    assert IsAncestor(prog, c, h, h, 0);
    if p >= FIRST_HANDLE {
      AncestorsFollowPath(prog, c, p);
      forall i | 0 < i < |all| - 1 ensures IsAncestor(prog, c, h, all[i], i) {
        AncestorOfCaller(prog, c, h, Ancestors(prog, c, p)[i - 1], i - 1);
      }
    }
  }
}

/** Whole runs of many threads over one calling-context tree: the tree pointers refine a
    stack machine, and handles are canonical names of call paths. */
module ContextRuns {
  import opened Options
  import opened SplayTree
  import opened CallingContext

  // ----- runs -----------------------------------------------------------------------

  datatype System = System(cct: Cct, threads: seq<Thread>)

  /** A new thread, or thread `t` executing the block with key `k`. */
  datatype Event = Start | Block(t: nat, k: nat)

  predicate Possible(prog: seq<Shadow>, s: System, e: Event) {
    e.Block? ==> e.t < |s.threads| && 0 < e.k < |prog|
  }

  /** One event; the only interaction of threads is through the shared counters, so a block
      is one step.  `None` stands for the end of the process. */
  function Step(prog: seq<Shadow>, s: System, e: Event): Option<System>
    requires Possible(prog, s, e)
  {
    match e
    case Start =>
      (match StartThread(s.cct)
       case None => None
       case Some(r) => Some(System(r.cct, s.threads + [r.thread])))
    case Block(t, k) =>
      (match BlockStep(prog, s.cct, s.threads[t], k)
       case None => None
       case Some(r) => Some(System(r.cct, s.threads[t := r.thread])))
  }

  /** The state after a sequence of events; `None` if some event is not possible or the
      process has ended. */
  function Run(prog: seq<Shadow>, es: seq<Event>): Option<System> {
    if es == [] then Some(System(EMPTY_CCT, []))
    else
      match Run(prog, es[..|es| - 1])
      case None => None
      case Some(s) => if Possible(prog, s, es[|es| - 1]) then Step(prog, s, es[|es| - 1]) else None
  }

  // ----- the reference: a stack of callers -------------------------------------------

  /** `callers` are the blocks whose calls have not returned, `cur` the block that ran last. */
  datatype Stack = Stack(callers: seq<nat>, cur: Option<nat>, pre: set<Flag>) {
    function CallPath(): seq<nat> {
      if cur.None? then [] else callers + [cur.value]
    }

    /** A call pushes the calling block, a return pops one (none when the stack is empty). */
    function Enter(k: nat, post: set<Flag>): Stack {
      var callers' :=
        if cur.None? then []
        else if CallDirect in pre || CallIndirect in pre then callers + [cur.value]
        else if Return in pre && callers != [] then callers[..|callers| - 1]
        else callers;
      Stack(callers', Some(k), post)
    }
  }

  const BOTTOM := Stack([], None, {ThreadRootVirtual})

  function Starts(es: seq<Event>): nat {
    if es == [] then 0 else Starts(es[..|es| - 1]) + (if es[|es| - 1].Start? then 1 else 0)
  }

  /** What the trace alone says about thread `t`. */
  function StackAfter(prog: seq<Shadow>, es: seq<Event>, t: nat): Stack {
    if es == [] then BOTTOM
    else
      var st := StackAfter(prog, es[..|es| - 1], t);
      match es[|es| - 1]
      case Start => st
      case Block(t', k) => if t' == t && k < |prog| then st.Enter(k, prog[k].endState) else st
  }

  // ----- invariant ------------------------------------------------------------------

  ghost predicate ThreadInv(c: Cct, th: Thread)
    requires Rooted(c)
  {
    && IsNode(c, th.root) && c.nodes[th.root].parent.None?
    && IsNode(c, th.cur) && RootOf(c, th.cur) == th.root
    && SpareReady(c, th.spare)
    && (th.cur == th.root <==> ThreadRootVirtual in th.pre)
  }

  ghost predicate Separate(a: Thread, b: Thread) {
    a.root != b.root && a.spare != b.spare
  }

  ghost predicate SystemInv(prog: seq<Shadow>, s: System) {
    && CctInv(prog, s.cct)
    && (forall t :: 0 <= t < |s.threads| ==> ThreadInv(s.cct, s.threads[t]))
    && (forall t, u :: 0 <= t < u < |s.threads| ==> Separate(s.threads[t], s.threads[u]))
    && (forall n :: 0 <= n < |s.cct.nodes| && s.cct.nodes[n].parent.None? ==> IsThreadRoot(s, n))
  }

  ghost predicate IsThreadRoot(s: System, n: nat) {
    exists t :: 0 <= t < |s.threads| && s.threads[t].root == n
  }

  /** The current node stands for the stack. */
  ghost predicate Refines(c: Cct, th: Thread, st: Stack)
    requires Rooted(c) && IsNode(c, th.cur)
  {
    && Path(c, th.cur) == st.CallPath()
    && th.pre == st.pre
    && (st.cur.None? <==> ThreadRootVirtual in th.pre)
  }

  lemma ParentPath(c: Cct, n: nat)
    requires Rooted(c) && IsNode(c, n)
    ensures Path(c, n) == [] <==> RootOf(c, n) == n
    ensures Path(c, n) == [] ==> c.nodes[n].parent.None?
    ensures Path(c, n) != [] ==>
      && c.nodes[n].parent.Some? && IsNode(c, c.nodes[n].parent.value)
      && Path(c, c.nodes[n].parent.value) == Path(c, n)[..|Path(c, n)| - 1]
      && RootOf(c, c.nodes[n].parent.value) == RootOf(c, n)
  {
    assert NodeRooted(c, n);
    if c.nodes[n].parent.Some? {
      RootIsOlder(c, c.nodes[n].parent.value);
    }
  }

  lemma {:induction false} RootIsOlder(c: Cct, n: nat)
    requires Rooted(c) && IsNode(c, n)
    ensures RootOf(c, n) <= n && c.nodes[RootOf(c, n)].parent.None?
  {
    assert NodeRooted(c, n);
    if c.nodes[n].parent.Some? {
      RootIsOlder(c, c.nodes[n].parent.value);
    }
  }

  /** The pointer chase finds the node of the reference's caller stack; it never follows a
      null parent, not even when there are more returns than calls. */
  lemma CallerIsStackTop(c: Cct, th: Thread, st: Stack, k: nat, post: set<Flag>)
    requires Rooted(c) && ThreadInv(c, th) && Refines(c, th, st)
    ensures var p := CallerNode(c, th);
      && p.Some? && IsNode(c, p.value)
      && RootOf(c, p.value) == th.root
      && Path(c, p.value) == st.Enter(k, post).callers
  {
    ParentPath(c, th.cur);
    ParentPath(c, th.root);
    if st.cur.Some? && !(CallDirect in th.pre || CallIndirect in th.pre) {
      var p := c.nodes[th.cur].parent.value;
      ParentPath(c, p);
      assert Path(c, p) == st.callers;
      if p == th.root {
        assert Path(c, p) == [];
      }
    }
  }

  lemma BlockKeepsThread(prog: seq<Shadow>, c: Cct, th: Thread, st: Stack, k: nat)
    requires CctInv(prog, c) && ThreadInv(c, th) && Refines(c, th, st) && 0 < k < |prog|
    ensures var r := BlockStep(prog, c, th, k);
      && (r.None? ==> c.Idle() + prog[k].slots >= CONTEXT_HANDLE_MAX)
      && (r.Some? ==>
            && CctInv(prog, r.value.cct) && Extends(c, r.value.cct)
            && ThreadInv(r.value.cct, r.value.thread)
            && Refines(r.value.cct, r.value.thread, st.Enter(k, prog[k].endState))
            && r.value.thread.root == th.root
            && (r.value.thread.spare == th.spare || r.value.thread.spare >= c.splayUsed)
            && (forall x :: x in r.value.cct.payload && x !in c.payload ==> x == th.spare)
            && (forall n :: |c.nodes| <= n < |r.value.cct.nodes| ==> r.value.cct.nodes[n].parent.Some?))
  {
    CallerIsStackTop(c, th, st, k, prog[k].endState);
    var p := CallerNode(c, th).value;
    if HasKey(c.trees[p], k) {
      FoundCallee(prog, c, th, k, p);
    } else {
      NewCallee(prog, c, th, k, p);
      UpdateCorrect(c.trees[p], k, th.spare);
    }
    var r := BlockStep(prog, c, th, k);
    if r.Some? {
      var c', th' := r.value.cct, r.value.thread;
      assert c'.nodes[th'.cur].parent == Some(p);
      ExtendsKeepsPath(c, c', p);
      ParentPath(c', th'.cur);
      assert NodeRooted(c', th'.cur);
      ParentPath(c', th'.root);
    }
  }

  lemma OtherThread(c: Cct, c': Cct, th: Thread, st: Stack)
    requires Rooted(c) && Rooted(c') && Extends(c, c')
    requires ThreadInv(c, th) && Refines(c, th, st) && th.spare !in c'.payload
    ensures ThreadInv(c', th) && Refines(c', th, st)
  {
    ExtendsKeepsPath(c, c', th.cur);
    assert c'.nodes[th.root] == c.nodes[th.root];
  }

  ghost predicate Consistent(prog: seq<Shadow>, es: seq<Event>, s: System) {
    && SystemInv(prog, s)
    && |s.threads| == Starts(es)
    && (forall t :: 0 <= t < |s.threads| ==> Refines(s.cct, s.threads[t], StackAfter(prog, es, t)))
    && (forall t: nat :: t >= |s.threads| ==> StackAfter(prog, es, t) == BOTTOM)
  }

  lemma StartKeepsCct(prog: seq<Shadow>, c: Cct)
    requires CctInv(prog, c)
    ensures var r := StartThread(c);
      r.Some? ==> CctInv(prog, r.value.cct) && Extends(c, r.value.cct)
  {
    var r := StartThread(c);
    if r.Some? {
      var c' := r.value.cct;
      var made := CreateNode(c, ROOT_KEY, None, 1).value;
      assert prog[ROOT_KEY].slots == 1;
      CreateTiled(prog, c, ROOT_KEY, None);
      CreateRooted(c, ROOT_KEY, None, 1);
      SameNodes(prog, made, c');
      forall p | 0 <= p < |c'.trees| ensures TreeIndexes(c', p, c'.trees[p]) {
        if p < |c.trees| {
          RootAddsNoCallee(c, c', p, c.trees[p]);
        } else {
          LeafIndexes(c', p);
        }
      }
    }
  }

  lemma StartKeepsInv(prog: seq<Shadow>, s: System)
    requires SystemInv(prog, s)
    ensures var r := StartThread(s.cct);
      && (r.None? ==> s.cct.Idle() + 1 >= CONTEXT_HANDLE_MAX)
      && (r.Some? ==>
            && CctInv(prog, r.value.cct) && Extends(s.cct, r.value.cct)
            && r.value.cct.payload == s.cct.payload && |r.value.cct.nodes| == |s.cct.nodes| + 1
            && r.value.thread.root == |s.cct.nodes| && r.value.thread.spare >= s.cct.splayUsed
            && ThreadInv(r.value.cct, r.value.thread)
            && Refines(r.value.cct, r.value.thread, BOTTOM))
  {
    StartKeepsCct(prog, s.cct);
  }

  lemma RootAddsNoCallee(c: Cct, c': Cct, p: nat, t: Tree<nat>)
    requires TreeIndexes(c, p, t) && c'.payload == c.payload
    requires |c'.nodes| == |c.nodes| + 1 && c.nodes <= c'.nodes && c'.nodes[|c.nodes|].parent.None?
    ensures TreeIndexes(c', p, t)
  {
    forall e | e in Inorder(t) ensures EntryOk(c', p, e) {
      assert EntryOk(c, p, e);
    }
    forall n: nat, k: int | IsCallee(c', p, k, n) ensures HasKey(t, k) {
      assert IsCallee(c, p, k, n);
    }
  }

  lemma StartStep(prog: seq<Shadow>, es: seq<Event>, s: System)
    requires Consistent(prog, es, s)
    ensures var r := Step(prog, s, Start);
      r.Some? ==> Consistent(prog, es + [Start], r.value) && Extends(s.cct, r.value.cct)
  {
    var es' := es + [Start];
    assert es'[..|es'| - 1] == es;
    StartKeepsInv(prog, s);
    var r := Step(prog, s, Start);
    if r.Some? {
      var s' := r.value;
      forall t | 0 <= t < |s'.threads|
        ensures ThreadInv(s'.cct, s'.threads[t]) && Refines(s'.cct, s'.threads[t], StackAfter(prog, es', t))
      {
        if t < |s.threads| {
          OtherThread(s.cct, s'.cct, s.threads[t], StackAfter(prog, es, t));
        }
      }
      forall t, u | 0 <= t < u < |s'.threads| ensures Separate(s'.threads[t], s'.threads[u]) {
        assert ThreadInv(s.cct, s.threads[t]);
        if u < |s.threads| { assert Separate(s.threads[t], s.threads[u]); }
      }
      forall n | 0 <= n < |s'.cct.nodes| && s'.cct.nodes[n].parent.None? ensures IsThreadRoot(s', n) {
        if n < |s.cct.nodes| {
          assert IsThreadRoot(s, n);
          var t :| 0 <= t < |s.threads| && s.threads[t].root == n;
          assert s'.threads[t].root == n;
        } else {
          assert s'.threads[|s.threads|].root == n;
        }
      }
    }
  }

  /** A block of thread `t` leaves every other thread as it was. */
  lemma BlockKeepsOther(prog: seq<Shadow>, s: System, t: nat, r: Started, u: nat, st: Stack)
    requires SystemInv(prog, s) && t < |s.threads| && u < |s.threads| && u != t
    requires Rooted(r.cct) && Extends(s.cct, r.cct)
    requires forall x :: x in r.cct.payload && x !in s.cct.payload ==> x == s.threads[t].spare
    requires ThreadInv(s.cct, s.threads[u]) && Refines(s.cct, s.threads[u], st)
    ensures ThreadInv(r.cct, s.threads[u]) && Refines(r.cct, s.threads[u], st)
  {
    assert Separate(s.threads[if t < u then t else u], s.threads[if t < u then u else t]);
    OtherThread(s.cct, r.cct, s.threads[u], st);
  }

  lemma BlockKeepsSystem(prog: seq<Shadow>, s: System, t: nat, r: Started)
    requires SystemInv(prog, s) && t < |s.threads|
    requires r.thread.root == s.threads[t].root && Extends(s.cct, r.cct)
    requires r.thread.spare == s.threads[t].spare || r.thread.spare >= s.cct.splayUsed
    requires forall n :: |s.cct.nodes| <= n < |r.cct.nodes| ==> r.cct.nodes[n].parent.Some?
    ensures var s' := System(r.cct, s.threads[t := r.thread]);
      && (forall u, v :: 0 <= u < v < |s'.threads| ==> Separate(s'.threads[u], s'.threads[v]))
      && (forall n :: 0 <= n < |s'.cct.nodes| && s'.cct.nodes[n].parent.None? ==> IsThreadRoot(s', n))
  {
    var s' := System(r.cct, s.threads[t := r.thread]);
    forall u, v | 0 <= u < v < |s'.threads| ensures Separate(s'.threads[u], s'.threads[v]) {
      assert ThreadInv(s.cct, s.threads[u]) && ThreadInv(s.cct, s.threads[v]);
      assert Separate(s.threads[u], s.threads[v]);
    }
    forall n | 0 <= n < |s'.cct.nodes| && s'.cct.nodes[n].parent.None? ensures IsThreadRoot(s', n) {
      assert n < |s.cct.nodes| && IsThreadRoot(s, n);
      var u :| 0 <= u < |s.threads| && s.threads[u].root == n;
      assert s'.threads[u].root == n;
    }
  }

  lemma BlockKeepsThreads(prog: seq<Shadow>, es: seq<Event>, s: System, t: nat, k: nat, r: Started)
    requires Consistent(prog, es, s) && Possible(prog, s, Block(t, k))
    requires Rooted(r.cct) && Extends(s.cct, r.cct)
    requires forall x :: x in r.cct.payload && x !in s.cct.payload ==> x == s.threads[t].spare
    requires ThreadInv(r.cct, r.thread)
    requires Refines(r.cct, r.thread, StackAfter(prog, es, t).Enter(k, prog[k].endState))
    ensures var ts := s.threads[t := r.thread]; forall u :: 0 <= u < |ts| ==>
      ThreadInv(r.cct, ts[u]) && Refines(r.cct, ts[u], StackAfter(prog, es + [Block(t, k)], u))
  {
    assert (es + [Block(t, k)])[..|es|] == es;
    var ts := s.threads[t := r.thread];
    forall u | 0 <= u < |ts|
      ensures ThreadInv(r.cct, ts[u]) && Refines(r.cct, ts[u], StackAfter(prog, es + [Block(t, k)], u))
    {
      if u != t {
        BlockKeepsOther(prog, s, t, r, u, StackAfter(prog, es, u));
      }
    }
  }

  lemma BlockEventStep(prog: seq<Shadow>, es: seq<Event>, s: System, t: nat, k: nat)
    requires Consistent(prog, es, s) && Possible(prog, s, Block(t, k))
    ensures var r := Step(prog, s, Block(t, k));
      && (r.None? ==> s.cct.Idle() + prog[k].slots >= CONTEXT_HANDLE_MAX)
      && (r.Some? ==> Consistent(prog, es + [Block(t, k)], r.value) && Extends(s.cct, r.value.cct)
                      && r.value.threads[t].root == s.threads[t].root)
  {
    assert (es + [Block(t, k)])[..|es|] == es;
    BlockKeepsThread(prog, s.cct, s.threads[t], StackAfter(prog, es, t), k);
    var b := BlockStep(prog, s.cct, s.threads[t], k);
    if b.Some? {
      BlockKeepsSystem(prog, s, t, b.value);
      BlockKeepsThreads(prog, es, s, t, k, b.value);
    }
  }

  /** Call/return tracking: in every run, for every thread, the chain of parents of the
      current node is the stack that the trace alone determines. */
  lemma {:induction false} RunRefinesStacks(prog: seq<Shadow>, es: seq<Event>)
    requires IsProgram(prog) && Run(prog, es).Some?
    ensures Consistent(prog, es, Run(prog, es).value)
  {
    if es != [] {
      var init, e := es[..|es| - 1], es[|es| - 1];
      RunRefinesStacks(prog, init);
      assert es == init + [e];
      if e.Start? {
        StartStep(prog, init, Run(prog, init).value);
      } else {
        BlockEventStep(prog, init, Run(prog, init).value, e.t, e.k);
      }
    }
  }

  ghost predicate HasPath(s: System, t: nat, path: seq<nat>)
    requires Rooted(s.cct) && t < |s.threads|
  {
    exists n: nat :: IsNode(s.cct, n) && RootOf(s.cct, n) == s.threads[t].root && Path(s.cct, n) == path
  }

  lemma CalleesArePaths(c: Cct, p: nat, k: nat)
    requires Rooted(c) && IsNode(c, p) && k != ROOT_KEY
    ensures (exists n: nat :: IsCallee(c, p, k, n))
       <==> exists n: nat :: IsNode(c, n) && RootOf(c, n) == RootOf(c, p) && Path(c, n) == Path(c, p) + [k]
  {
    if n: nat :| IsCallee(c, p, k, n) {
      assert IsNode(c, n) && RootOf(c, n) == RootOf(c, p) && Path(c, n) == Path(c, p) + [k];
    }
    if n: nat :| IsNode(c, n) && RootOf(c, n) == RootOf(c, p) && Path(c, n) == Path(c, p) + [k] {
      ParentPath(c, n);
      assert Path(c, n)[..|Path(c, n)| - 1] == Path(c, p);
      assert Path(c, n)[|Path(c, n)| - 1] == k;
      PathDeterminesNode(c, c.nodes[n].parent.value, p);
      assert IsCallee(c, p, k, n);
    }
  }

  /** Entering a callee ends the process exactly when it is new and its handles do not fit. */
  lemma CalleeStops(prog: seq<Shadow>, c: Cct, th: Thread, p: nat, k: nat)
    requires CctInv(prog, c) && SpareReady(c, th.spare) && 0 < k < |prog| && p < |c.nodes|
    ensures EnterCallee(prog, c, th, k, p).None?
       <==> !(exists n: nat :: IsCallee(c, p, k, n)) && c.Idle() + prog[k].slots >= CONTEXT_HANDLE_MAX
  {
    assert TreeIndexes(c, p, c.trees[p]);
    if HasKey(c.trees[p], k) {
      FoundCallee(prog, c, th, k, p);
      var x :| x in Inorder(c.trees[p]) && x.key == k;
      assert EntryOk(c, p, x);
    } else {
      UpdateCorrect(c.trees[p], k, th.spare);
    }
  }

  lemma StepStops(prog: seq<Shadow>, es: seq<Event>, s: System, t: nat, k: nat)
    requires Consistent(prog, es, s) && Possible(prog, s, Block(t, k))
    ensures Step(prog, s, Block(t, k)).None?
       <==> && !HasPath(s, t, StackAfter(prog, es, t).Enter(k, prog[k].endState).CallPath())
            && s.cct.Idle() + prog[k].slots >= CONTEXT_HANDLE_MAX
  {
    var th, st := s.threads[t], StackAfter(prog, es, t);
    CallerIsStackTop(s.cct, th, st, k, prog[k].endState);
    var p := CallerNode(s.cct, th).value;
    CalleesArePaths(s.cct, p, k);
    CalleeStops(prog, s.cct, th, p, k);
  }

  /** A block ends the process exactly when its call path is new and its handles do not fit
      any more; in particular no null node is ever dereferenced. */
  lemma BlockStopsOnlyWhenFull(prog: seq<Shadow>, es: seq<Event>, t: nat, k: nat)
    requires IsProgram(prog) && Run(prog, es).Some? && Possible(prog, Run(prog, es).value, Block(t, k))
    ensures Rooted(Run(prog, es).value.cct)
    ensures var s := Run(prog, es).value;
      var path := StackAfter(prog, es + [Block(t, k)], t).CallPath();
      Run(prog, es + [Block(t, k)]).None?
      <==> !HasPath(s, t, path) && s.cct.Idle() + prog[k].slots >= CONTEXT_HANDLE_MAX
  {
    assert (es + [Block(t, k)])[..|es|] == es;
    RunRefinesStacks(prog, es);
    StepStops(prog, es, Run(prog, es).value, t, k);
  }

  // ----- canonical handles ----------------------------------------------------------

  lemma {:induction false} RunExtends(prog: seq<Shadow>, es1: seq<Event>, es2: seq<Event>)
    requires IsProgram(prog) && Run(prog, es1 + es2).Some?
    ensures Run(prog, es1).Some?
    ensures var s1, s2 := Run(prog, es1).value, Run(prog, es1 + es2).value;
      && s1.cct.nodes <= s2.cct.nodes && s1.cct.owner <= s2.cct.owner
      && |s1.threads| <= |s2.threads|
      && forall t :: 0 <= t < |s1.threads| ==> s2.threads[t].root == s1.threads[t].root
  {
    if es2 == [] {
      assert es1 + es2 == es1;
    } else {
      var init, e := es2[..|es2| - 1], es2[|es2| - 1];
      assert (es1 + es2)[..|es1 + es2| - 1] == es1 + init;
      RunExtends(prog, es1, init);
      RunRefinesStacks(prog, es1 + init);
      if e.Start? {
        StartStep(prog, es1 + init, Run(prog, es1 + init).value);
      } else {
        BlockEventStep(prog, es1 + init, Run(prog, es1 + init).value, e.t, e.k);
      }
    }
  }

  lemma {:induction false} RangesAscend(prog: seq<Shadow>, c: Cct, i: nat, j: nat)
    requires Tiled(prog, c) && i < j < |c.nodes|
    ensures FIRST_HANDLE <= c.nodes[i].start < c.nodes[i].End() <= c.nodes[j].start
    decreases j
  {
    assert NodeTiled(prog, c, i) && NodeTiled(prog, c, j) && NodeTiled(prog, c, j - 1);
    if i < j - 1 {
      RangesAscend(prog, c, i, j - 1);
    } else if i > 0 {
      RangesAscend(prog, c, i - 1, i);
    }
  }

  lemma NodeRange(prog: seq<Shadow>, c: Cct, n: nat)
    requires Tiled(prog, c) && IsNode(c, n)
    ensures FIRST_HANDLE <= c.nodes[n].start < c.nodes[n].End() <= c.Idle()
  {
    var last := |c.nodes| - 1;
    assert NodeTiled(prog, c, n) && NodeTiled(prog, c, last);
    if n < last { RangesAscend(prog, c, n, last); }
    if n > 0 { RangesAscend(prog, c, 0, n); }
  }

  /** A handle is in the range of one node only: its owner. */
  lemma OwnerOfRange(prog: seq<Shadow>, c: Cct, n: nat, h: nat)
    requires Tiled(prog, c) && IsNode(c, n) && c.nodes[n].start <= h < c.nodes[n].End()
    ensures FIRST_HANDLE <= h < c.Idle() && c.owner[h] == Some(n)
  {
    NodeRange(prog, c, n);
    assert Owned(c, h);
    var m := c.owner[h].value;
    if m < n { RangesAscend(prog, c, m, n); } else if n < m { RangesAscend(prog, c, n, m); }
  }

  /** Every handle from 2 up to the counter names one thread, one call path and one slot, and
      no two handles name the same; handles 0 and 1 belong to no node. */
  lemma HandlesAreNames(prog: seq<Shadow>, es: seq<Event>, h1: nat, h2: nat)
    requires IsProgram(prog) && Run(prog, es).Some?
    requires FIRST_HANDLE <= h1 < Run(prog, es).value.cct.Idle()
    requires FIRST_HANDLE <= h2 < Run(prog, es).value.cct.Idle()
    ensures SystemInv(prog, Run(prog, es).value)
    ensures var s := Run(prog, es).value; var c := s.cct;
      && c.owner[h1].Some? && c.owner[h2].Some? && IsNode(c, c.owner[h1].value) && IsNode(c, c.owner[h2].value)
      && IsThreadRoot(s, RootOf(c, c.owner[h1].value))
      && 0 <= h1 - c.nodes[c.owner[h1].value].start < c.nodes[c.owner[h1].value].slots
      && c.owner[0] == None && c.owner[1] == None
      && (h1 == h2 <==> && RootOf(c, c.owner[h1].value) == RootOf(c, c.owner[h2].value)
                        && Path(c, c.owner[h1].value) == Path(c, c.owner[h2].value)
                        && h1 - c.nodes[c.owner[h1].value].start == h2 - c.nodes[c.owner[h2].value].start)
  {
    RunRefinesStacks(prog, es);
    var s := Run(prog, es).value;
    var c := s.cct;
    assert Owned(c, h1) && Owned(c, h2);
    var n1, n2 := c.owner[h1].value, c.owner[h2].value;
    assert NodeTiled(prog, c, n1);
    RootIsOlder(c, n1);
    if RootOf(c, n1) == RootOf(c, n2) && Path(c, n1) == Path(c, n2) {
      PathDeterminesNode(c, n1, n2);
    }
  }

  /** The handle of instruction `slot` of the block thread `t` is in. */
  function CurrentHandle(s: System, t: nat, slot: nat): nat
    requires t < |s.threads|
  {
    if s.threads[t].cur < |s.cct.nodes| then s.cct.nodes[s.threads[t].cur].start + slot else 0
  }

  function CurrentSlots(s: System, t: nat): nat
    requires t < |s.threads|
  {
    if s.threads[t].cur < |s.cct.nodes| then s.cct.nodes[s.threads[t].cur].slots else 0
  }

  /** Different slots have different handles. */
  lemma SlotsDiffer(prog: seq<Shadow>, c: Cct, n1: nat, n2: nat, slot1: nat, slot2: nat)
    requires Tiled(prog, c) && IsNode(c, n1) && IsNode(c, n2)
    requires slot1 < c.nodes[n1].slots && slot2 < c.nodes[n2].slots
    ensures c.nodes[n1].start + slot1 == c.nodes[n2].start + slot2 <==> n1 == n2 && slot1 == slot2
  {
    OwnerOfRange(prog, c, n1, c.nodes[n1].start + slot1);
    OwnerOfRange(prog, c, n2, c.nodes[n2].start + slot2);
  }

  /** Thread and path name a node. */
  lemma NodesAreNames(prog: seq<Shadow>, s: System, t1: nat, t2: nat, n1: nat, n2: nat)
    requires SystemInv(prog, s) && t1 < |s.threads| && t2 < |s.threads| && IsNode(s.cct, n1) && IsNode(s.cct, n2)
    requires RootOf(s.cct, n1) == s.threads[t1].root && RootOf(s.cct, n2) == s.threads[t2].root
    ensures n1 == n2 <==> t1 == t2 && Path(s.cct, n1) == Path(s.cct, n2)
  {
    if t1 < t2 {
      assert Separate(s.threads[t1], s.threads[t2]);
    } else if t2 < t1 {
      assert Separate(s.threads[t2], s.threads[t1]);
    } else if Path(s.cct, n1) == Path(s.cct, n2) {
      PathDeterminesNode(s.cct, n1, n2);
    }
  }

  /** A node a thread was at earlier is there still, with its path. */
  lemma NodeOfEarlier(prog: seq<Shadow>, es1: seq<Event>, es2: seq<Event>, t: nat)
    requires IsProgram(prog) && Run(prog, es1 + es2).Some? && Run(prog, es1).Some?
    requires t < |Run(prog, es1).value.threads|
    ensures var s1, s2 := Run(prog, es1).value, Run(prog, es1 + es2).value;
      && SystemInv(prog, s2) && |s1.threads| <= |s2.threads|
      && s1.threads[t].cur < |s1.cct.nodes| && IsNode(s2.cct, s1.threads[t].cur)
      && s2.cct.nodes[s1.threads[t].cur] == s1.cct.nodes[s1.threads[t].cur]
      && RootOf(s2.cct, s1.threads[t].cur) == s2.threads[t].root
      && Path(s2.cct, s1.threads[t].cur) == StackAfter(prog, es1, t).CallPath()
  {
    var s1, s2 := Run(prog, es1).value, Run(prog, es1 + es2).value;
    RunExtends(prog, es1, es2);
    RunRefinesStacks(prog, es1);
    RunRefinesStacks(prog, es1 + es2);
    assert Refines(s1.cct, s1.threads[t], StackAfter(prog, es1, t));
    ExtendsKeepsPath(s1.cct, s2.cct, s1.threads[t].cur);
  }

  /** Handles are canonical.  Take any two moments of any run of any number of threads: the
      current handles are equal if and only if thread, call path (as the trace alone
      determines it) and slot are equal. */
  lemma CanonicalHandles(prog: seq<Shadow>, es1: seq<Event>, es2: seq<Event>, t1: nat, t2: nat, slot1: nat, slot2: nat)
    requires IsProgram(prog) && Run(prog, es1 + es2).Some? && Run(prog, es1).Some?
    requires t1 < |Run(prog, es1).value.threads| && t2 < |Run(prog, es1 + es2).value.threads|
    requires slot1 < CurrentSlots(Run(prog, es1).value, t1)
    requires slot2 < CurrentSlots(Run(prog, es1 + es2).value, t2)
    ensures CurrentHandle(Run(prog, es1).value, t1, slot1) == CurrentHandle(Run(prog, es1 + es2).value, t2, slot2)
       <==> && t1 == t2 && slot1 == slot2
            && StackAfter(prog, es1, t1).CallPath() == StackAfter(prog, es1 + es2, t2).CallPath()
  {
    var s1, s2 := Run(prog, es1).value, Run(prog, es1 + es2).value;
    var n1, n2 := s1.threads[t1].cur, s2.threads[t2].cur;
    NodeOfEarlier(prog, es1, es2, t1);
    assert (es1 + es2) + [] == es1 + es2;
    NodeOfEarlier(prog, es1 + es2, [], t2);
    SlotsDiffer(prog, s2.cct, n1, n2, slot1, slot2);
    NodesAreNames(prog, s2, t1, t2, n1, n2);
  }
}

/** The optional memo in front of the splay tree (IN_PROCESS_SPEEDUP): each block shadow
    remembers, per thread, the node it was last resolved to.  A hit skips the tree. */
module MemoRuns {
  import opened Options
  import opened SplayTree
  import opened CallingContext
  import opened ContextRuns

  const SPEEDUP_THREADS: nat := 32

  /** `speedup_cache_index` of a thread; negative means no memo. */
  function SpeedupIndex(id: nat): int {
    if id > SPEEDUP_THREADS then -1 else id
  }

  /** `memo[(t, k)]` is `last_same_key_bb_pt_list[t]` of the shadow with key k.  Threads are named by
      their number. */
  datatype MemoSystem = MemoSystem(cct: Cct, threads: seq<Thread>, memo: map<(nat, nat), nat>)

  /** `MForget(k)`: the block is analysed again and gets a fresh, empty list. */
  datatype MemoEvent = MStart | MBlock(t: nat, k: nat) | MForget(k: nat)

  /** `OutOfTable`: an entry is accessed that the list of a shadow does not have. */
  datatype Outcome = Running(s: MemoSystem) | Ended | OutOfTable

  predicate MPossible(prog: seq<Shadow>, s: MemoSystem, e: MemoEvent) {
    e.MBlock? ==> e.t < |s.threads| && 0 < e.k < |prog|
  }

  predicate MemoHit(c: Cct, memo: map<(nat, nat), nat>, t: nat, k: nat, caller: nat) {
    SpeedupIndex(t) >= 0 && (t, k) in memo && ParentOf(c, Some(memo[(t, k)])) == Some(caller)
  }

  function MStep(prog: seq<Shadow>, s: MemoSystem, e: MemoEvent): Outcome
    requires MPossible(prog, s, e)
  {
    match e
    case MStart =>
      (match StartThread(s.cct)
       case None => Ended
       case Some(r) => Running(MemoSystem(r.cct, s.threads + [r.thread], s.memo)))
    case MForget(k) => Running(s.(memo := map x | x in s.memo && x.1 != k :: s.memo[x]))
    case MBlock(t, k) =>
      var th := s.threads[t];
      var caller := CallerNode(s.cct, th);
      if caller.None? || caller.value >= |s.cct.trees| then Ended
      else if SpeedupIndex(t) >= SPEEDUP_THREADS then OutOfTable
      else if MemoHit(s.cct, s.memo, t, k, caller.value) then
        Running(s.(threads := s.threads[t := th.(cur := s.memo[(t, k)], pre := prog[k].endState)]))
      else
        match EnterCallee(prog, s.cct, th, k, caller.value)
        case None => Ended
        case Some(r) =>
          Running(MemoSystem(r.cct, s.threads[t := r.thread],
                             if SpeedupIndex(t) >= 0 then s.memo[(t, k) := r.thread.cur] else s.memo))
  }

  function MRun(prog: seq<Shadow>, es: seq<MemoEvent>): Outcome {
    if es == [] then Running(MemoSystem(EMPTY_CCT, [], map[]))
    else
      match MRun(prog, es[..|es| - 1])
      case Running(s) => if MPossible(prog, s, es[|es| - 1]) then MStep(prog, s, es[|es| - 1]) else Ended
      case _ => MRun(prog, es[..|es| - 1])
  }

  /** The same events for the machine without the memo. */
  function Plain(es: seq<MemoEvent>): seq<Event> {
    if es == [] then []
    else
      Plain(es[..|es| - 1]) +
      match es[|es| - 1]
      case MStart => [Start]
      case MBlock(t, k) => [Block(t, k)]
      case MForget(_) => []
  }

  // ----- the relation between the two machines ---------------------------------------

  /** Equal but for the shapes of the splay trees. */
  ghost predicate SameButShapes(c1: Cct, c2: Cct) {
    c1.(trees := []) == c2.(trees := [])
  }

  ghost predicate MemoOk(c: Cct, memo: map<(nat, nat), nat>) {
    forall x :: x in memo ==> memo[x] < |c.nodes| && c.nodes[memo[x]].key == x.1
  }

  ghost predicate Agrees(prog: seq<Shadow>, m: MemoSystem, s: System) {
    && SystemInv(prog, s) && CctInv(prog, m.cct)
    && SameButShapes(m.cct, s.cct) && m.threads == s.threads && MemoOk(m.cct, m.memo)
  }

  lemma CalleeUnique(c: Cct, p: nat, k: int, m: nat, n: nat)
    requires Rooted(c) && IsCallee(c, p, k, m) && IsCallee(c, p, k, n)
    ensures m == n
  {
    if m < n { assert Siblings(c, m, n); } else if n < m { assert Siblings(c, n, m); }
  }

  lemma SameCallees(c1: Cct, c2: Cct, p: nat, k: int, n: nat)
    requires SameButShapes(c1, c2)
    ensures IsCallee(c1, p, k, n) <==> IsCallee(c2, p, k, n)
  {
  }

  lemma TreesKnowSameKeys(prog: seq<Shadow>, c1: Cct, c2: Cct, p: nat, k: nat)
    requires CctInv(prog, c1) && CctInv(prog, c2) && SameButShapes(c1, c2) && p < |c1.nodes|
    requires HasKey(c1.trees[p], k)
    ensures HasKey(c2.trees[p], k)
  {
    var e :| e in Inorder(c1.trees[p]) && e.key == k;
    assert TreeIndexes(c1, p, c1.trees[p]) && TreeIndexes(c2, p, c2.trees[p]);
    assert EntryOk(c1, p, e);
    SameCallees(c1, c2, p, k, c1.payload[e.id]);
  }

  /** Tree shapes do not influence what a lookup finds or creates. */
  lemma ShapesDoNotMatter(prog: seq<Shadow>, c1: Cct, c2: Cct, th: Thread, k: nat, p: nat)
    requires CctInv(prog, c1) && CctInv(prog, c2) && SameButShapes(c1, c2)
    requires SpareReady(c1, th.spare) && 0 < k < |prog| && p < |c1.nodes|
    ensures var r1, r2 := EnterCallee(prog, c1, th, k, p), EnterCallee(prog, c2, th, k, p);
      && (r1.None? <==> r2.None?)
      && (r1.Some? ==> SameButShapes(r1.value.cct, r2.value.cct) && r1.value.thread == r2.value.thread
                       && CctInv(prog, r1.value.cct) && IsCallee(r1.value.cct, p, k, r1.value.thread.cur)
                       && Extends(c1, r1.value.cct))
  {
    if HasKey(c1.trees[p], k) {
      TreesKnowSameKeys(prog, c1, c2, p, k);
      FoundCallee(prog, c1, th, k, p);
      FoundCallee(prog, c2, th, k, p);
      Found(prog, c1, th, k, p);
      Found(prog, c2, th, k, p);
      var r1, r2 := EnterCallee(prog, c1, th, k, p).value, EnterCallee(prog, c2, th, k, p).value;
      CalleeUnique(c1, p, k, r1.thread.cur, r2.thread.cur);
    } else {
      if HasKey(c2.trees[p], k) { TreesKnowSameKeys(prog, c2, c1, p, k); }
      NewCallee(prog, c1, th, k, p);
      NewCallee(prog, c2, th, k, p);
      UpdateCorrect(c1.trees[p], k, th.spare);
      UpdateCorrect(c2.trees[p], k, th.spare);
    }
  }

  lemma Found(prog: seq<Shadow>, c: Cct, th: Thread, k: nat, p: nat)
    requires CctInv(prog, c) && SpareReady(c, th.spare) && 0 < k < |prog| && p < |c.nodes|
    requires HasKey(c.trees[p], k)
    ensures var r := EnterCallee(prog, c, th, k, p);
      && r.Some? && r.value.cct.(trees := []) == c.(trees := [])
      && IsCallee(c, p, k, r.value.thread.cur)
      && r.value.thread == th.(cur := r.value.thread.cur, pre := prog[k].endState)
  {
    var t, t' := c.trees[p], Update(c.trees[p], k, th.spare);
    UpdateCorrect(t, k, th.spare);
    RootEntry(t');
    assert TreeIndexes(c, p, t);
    assert EntryOk(c, p, Entry(t'.id, k));
  }

  /** Every hit is the node the skipped lookup would return. */
  lemma HitIsLookup(prog: seq<Shadow>, c: Cct, memo: map<(nat, nat), nat>, th: Thread, t: nat, k: nat, p: nat)
    requires CctInv(prog, c) && MemoOk(c, memo) && SpareReady(c, th.spare) && 0 < k < |prog| && p < |c.nodes|
    requires MemoHit(c, memo, t, k, p)
    ensures var r := EnterCallee(prog, c, th, k, p);
      && r.Some? && SameButShapes(r.value.cct, c)
      && r.value.thread == th.(cur := memo[(t, k)], pre := prog[k].endState)
  {
    assert IsCallee(c, p, k, memo[(t, k)]);
    assert TreeIndexes(c, p, c.trees[p]);
    Found(prog, c, th, k, p);
    CalleeUnique(c, p, k, memo[(t, k)], EnterCallee(prog, c, th, k, p).value.thread.cur);
  }

  /** What a memo-machine block does, in terms of the plain lookup on another tree shape. */
  lemma MBlockResult(prog: seq<Shadow>, m: MemoSystem, c: Cct, t: nat, k: nat, p: nat)
    requires CctInv(prog, m.cct) && CctInv(prog, c) && SameButShapes(m.cct, c) && MemoOk(m.cct, m.memo)
    requires MPossible(prog, m, MBlock(t, k)) && CallerNode(m.cct, m.threads[t]) == Some(p) && p < |c.nodes|
    requires SpareReady(m.cct, m.threads[t].spare) && SpeedupIndex(t) < SPEEDUP_THREADS
    ensures var r, q := MStep(prog, m, MBlock(t, k)), EnterCallee(prog, c, m.threads[t], k, p);
      && (if q.None? then r == Ended else r.Running?)
      && (r.Running? ==> && CctInv(prog, r.s.cct) && SameButShapes(r.s.cct, q.value.cct)
                         && r.s.threads == m.threads[t := q.value.thread]
                         && MemoOk(r.s.cct, r.s.memo))
  {
    var th := m.threads[t];
    ShapesDoNotMatter(prog, m.cct, c, th, k, p);
    if MemoHit(m.cct, m.memo, t, k, p) {
      HitIsLookup(prog, m.cct, m.memo, th, t, k, p);
    } else {
      var r := MStep(prog, m, MBlock(t, k));
      if r.Running? {
        MemoGrows(m.cct, r.s.cct, m.memo);
      }
    }
  }

  lemma MemoGrows(c: Cct, c': Cct, memo: map<(nat, nat), nat>)
    requires MemoOk(c, memo) && c.nodes <= c'.nodes
    ensures MemoOk(c', memo)
  {
    forall x | x in memo ensures memo[x] < |c'.nodes| && c'.nodes[memo[x]].key == x.1 {
      assert c.nodes[memo[x]] == c'.nodes[memo[x]];
    }
  }

  /** One step of both machines: they stop together, or go on in agreement. */
  ghost predicate StepsAgree(prog: seq<Shadow>, r: Outcome, q: Option<System>) {
    if q.None? then r == Ended else r.Running? && Agrees(prog, r.s, q.value)
  }

  lemma BlockAgrees(prog: seq<Shadow>, es: seq<Event>, m: MemoSystem, s: System, t: nat, k: nat)
    requires Consistent(prog, es, s) && Agrees(prog, m, s) && MPossible(prog, m, MBlock(t, k))
    ensures MStep(prog, m, MBlock(t, k)) == OutOfTable <==> t == SPEEDUP_THREADS
    ensures t != SPEEDUP_THREADS ==> StepsAgree(prog, MStep(prog, m, MBlock(t, k)), Step(prog, s, Block(t, k)))
  {
    var th := s.threads[t];
    CallerIsStackTop(s.cct, th, StackAfter(prog, es, t), k, prog[k].endState);
    var p := CallerNode(s.cct, th).value;
    assert CallerNode(m.cct, th) == Some(p);
    assert ThreadInv(s.cct, th);
    if t != SPEEDUP_THREADS {
      MBlockResult(prog, m, s.cct, t, k, p);
      BlockEventStep(prog, es, s, t, k);
    }
  }

  /** Starting a thread does not look at the trees. */
  lemma StartSame(prog: seq<Shadow>, c1: Cct, c2: Cct)
    requires CctInv(prog, c1) && CctInv(prog, c2) && SameButShapes(c1, c2)
    ensures var r1, r2 := StartThread(c1), StartThread(c2);
      && (r1.None? <==> r2.None?)
      && (r1.Some? ==> CctInv(prog, r1.value.cct) && SameButShapes(r1.value.cct, r2.value.cct)
                       && r1.value.thread == r2.value.thread && c1.nodes <= r1.value.cct.nodes)
  {
    StartKeepsCct(prog, c1);
  }

  lemma StartAgrees(prog: seq<Shadow>, es: seq<Event>, m: MemoSystem, s: System)
    requires Consistent(prog, es, s) && Agrees(prog, m, s)
    ensures StepsAgree(prog, MStep(prog, m, MStart), Step(prog, s, Start))
  {
    StartSame(prog, m.cct, s.cct);
    StartStep(prog, es, s);
    var r := MStep(prog, m, MStart);
    if r.Running? {
      MemoGrows(m.cct, r.s.cct, m.memo);
    }
  }

  // ----- runs -----------------------------------------------------------------------

  /** Both runs go on, in agreement. */
  ghost predicate RunsAgree(prog: seq<Shadow>, es: seq<MemoEvent>) {
    MRun(prog, es).Running? && Run(prog, Plain(es)).Some? && Agrees(prog, MRun(prog, es).s, Run(prog, Plain(es)).value)
  }

  lemma RunNext(prog: seq<Shadow>, init: seq<MemoEvent>, e: MemoEvent)
    requires MRun(prog, init).Running? && MPossible(prog, MRun(prog, init).s, e)
    ensures MRun(prog, init + [e]) == MStep(prog, MRun(prog, init).s, e)
  {
    assert (init + [e])[..|init|] == init;
  }

  lemma PlainNext(init: seq<MemoEvent>, e: MemoEvent)
    ensures Plain(init + [MStart]) == Plain(init) + [Start]
    ensures e.MBlock? ==> Plain(init + [e]) == Plain(init) + [Block(e.t, e.k)]
    ensures e.MForget? ==> Plain(init + [e]) == Plain(init)
  {
    assert (init + [e])[..|init|] == init && (init + [MStart])[..|init|] == init;
  }

  lemma PlainRunNext(prog: seq<Shadow>, es: seq<Event>, e: Event)
    requires Run(prog, es).Some? && Possible(prog, Run(prog, es).value, e)
    ensures Run(prog, es + [e]) == Step(prog, Run(prog, es).value, e)
  {
    assert (es + [e])[..|es|] == es;
  }

  lemma StartEventAgrees(prog: seq<Shadow>, init: seq<MemoEvent>)
    requires IsProgram(prog) && RunsAgree(prog, init)
    ensures StepsAgree(prog, MRun(prog, init + [MStart]), Run(prog, Plain(init + [MStart])))
  {
    var m, s := MRun(prog, init).s, Run(prog, Plain(init)).value;
    RunNext(prog, init, MStart);
    PlainNext(init, MStart);
    PlainRunNext(prog, Plain(init), Start);
    RunRefinesStacks(prog, Plain(init));
    StartAgrees(prog, Plain(init), m, s);
  }

  lemma BlockEventAgrees(prog: seq<Shadow>, init: seq<MemoEvent>, t: nat, k: nat)
    requires IsProgram(prog) && RunsAgree(prog, init) && MPossible(prog, MRun(prog, init).s, MBlock(t, k))
    ensures MRun(prog, init + [MBlock(t, k)]) == OutOfTable <==> t == SPEEDUP_THREADS
    ensures t != SPEEDUP_THREADS ==>
              StepsAgree(prog, MRun(prog, init + [MBlock(t, k)]), Run(prog, Plain(init + [MBlock(t, k)])))
  {
    var m, s := MRun(prog, init).s, Run(prog, Plain(init)).value;
    RunNext(prog, init, MBlock(t, k));
    PlainNext(init, MBlock(t, k));
    PlainRunNext(prog, Plain(init), Block(t, k));
    RunRefinesStacks(prog, Plain(init));
    BlockAgrees(prog, Plain(init), m, s, t, k);
  }

  lemma ForgetEventAgrees(prog: seq<Shadow>, init: seq<MemoEvent>, k: nat)
    requires RunsAgree(prog, init)
    ensures RunsAgree(prog, init + [MForget(k)])
  {
    RunNext(prog, init, MForget(k));
    PlainNext(init, MForget(k));
  }

  /** One event more: the table is left exactly if it is a block of the thread whose number is the
      size of the table; with any other the memo machine goes on exactly if the plain one does, and in
      agreement. */
  lemma EventAgrees(prog: seq<Shadow>, init: seq<MemoEvent>, e: MemoEvent)
    requires IsProgram(prog) && RunsAgree(prog, init) && MPossible(prog, MRun(prog, init).s, e)
    ensures MRun(prog, init + [e]) == OutOfTable <==> e.MBlock? && e.t == SPEEDUP_THREADS
    ensures !(e.MBlock? && e.t == SPEEDUP_THREADS) ==>
              StepsAgree(prog, MRun(prog, init + [e]), Run(prog, Plain(init + [e])))
  {
    match e
    case MStart => StartEventAgrees(prog, init);
    case MBlock(t, k) => BlockEventAgrees(prog, init, t, k);
    case MForget(k) => ForgetEventAgrees(prog, init, k);
  }

  /** Main result: over whole runs of all threads the memo changes nothing but tree shapes.
      The same runs are possible, with the same nodes, handles and current contexts. */
  lemma {:induction false} MemoChangesOnlyShapes(prog: seq<Shadow>, es: seq<MemoEvent>)
    requires IsProgram(prog) && MRun(prog, es).Running?
    ensures RunsAgree(prog, es)
  {
    if es == [] {
      assert CctInv(prog, EMPTY_CCT);
    } else {
      var init, e := es[..|es| - 1], es[|es| - 1];
      assert es == init + [e];
      MemoChangesOnlyShapes(prog, init);
      EventAgrees(prog, init, e);
    }
  }

  // ----- what is remembered ---------------------------------------------------------

  /** The node at which thread `t` executed block `k` last, since `k` was last analysed */
  ghost function LastNodeOf(prog: seq<Shadow>, es: seq<MemoEvent>, t: nat, k: nat): Option<nat> {
    if es == [] then None
    else
      var front, e := es[..|es| - 1], es[|es| - 1];
      if e == MForget(k) then None
      else if e == MBlock(t, k) && MRun(prog, es).Running? && t < |MRun(prog, es).s.threads| then
        Some(MRun(prog, es).s.threads[t].cur)
      else LastNodeOf(prog, front, t, k)
  }

  function Remembered(memo: map<(nat, nat), nat>, t: nat, k: nat): Option<nat> {
    if (t, k) in memo then Some(memo[(t, k)]) else None
  }

  lemma StepRemembers(prog: seq<Shadow>, m: MemoSystem, e: MemoEvent, t: nat, k: nat)
    requires MPossible(prog, m, e) && t < SPEEDUP_THREADS && MStep(prog, m, e).Running?
    ensures var r := MStep(prog, m, e).s;
      Remembered(r.memo, t, k) ==
        if e == MForget(k) then None
        else if e == MBlock(t, k) then Some(r.threads[t].cur) else Remembered(m.memo, t, k)
    ensures e.MBlock? ==> e.t < |MStep(prog, m, e).s.threads|
  {
  }

  /** The memo of a thread with an entry holds exactly the nodes at which it executed blocks last. */
  lemma {:induction false} MemoIsLastNode(prog: seq<Shadow>, es: seq<MemoEvent>, t: nat, k: nat)
    requires MRun(prog, es).Running? && t < SPEEDUP_THREADS
    ensures Remembered(MRun(prog, es).s.memo, t, k) == LastNodeOf(prog, es, t, k)
  {
    if es != [] {
      var front, e := es[..|es| - 1], es[|es| - 1];
      MemoIsLastNode(prog, front, t, k);
      StepRemembers(prog, MRun(prog, front).s, e, t, k);
    }
  }

  /** A block that a thread executes again below the same caller goes to the node it was at last, and
      leaves all trees as they are: that is what the memo saves. */
  lemma AgainSkipsTree(prog: seq<Shadow>, es: seq<MemoEvent>, t: nat, k: nat, n: nat)
    requires MRun(prog, es).Running? && MPossible(prog, MRun(prog, es).s, MBlock(t, k)) && t < SPEEDUP_THREADS
    requires LastNodeOf(prog, es, t, k) == Some(n)
    requires var m := MRun(prog, es).s;
      CallerNode(m.cct, m.threads[t]).Some? && CallerNode(m.cct, m.threads[t]).value < |m.cct.trees|
      && ParentOf(m.cct, Some(n)) == CallerNode(m.cct, m.threads[t])
    ensures var r := MRun(prog, es + [MBlock(t, k)]);
      r.Running? && r.s.cct == MRun(prog, es).s.cct && r.s.threads[t].cur == n
  {
    MemoIsLastNode(prog, es, t, k);
    RunNext(prog, es, MBlock(t, k));
  }

  // ----- the size of the table ------------------------------------------------------

  function MStarts(es: seq<MemoEvent>): nat {
    if es == [] then 0 else MStarts(es[..|es| - 1]) + (if es[|es| - 1].MStart? then 1 else 0)
  }

  lemma {:induction false} ThreadsStarted(prog: seq<Shadow>, es: seq<MemoEvent>)
    ensures MRun(prog, es).Running? ==> |MRun(prog, es).s.threads| == MStarts(es)
    ensures MRun(prog, es) == OutOfTable ==> MStarts(es) > SPEEDUP_THREADS
  {
    if es != [] {
      ThreadsStarted(prog, es[..|es| - 1]);
    }
  }

  /** The run that starts `n` threads, the last numbered `n` - 1 */
  function Starting(n: nat): seq<MemoEvent> {
    seq(n, _ => MStart)
  }

  lemma {:induction false} StartingRuns(prog: seq<Shadow>, n: nat)
    requires IsProgram(prog) && n + FIRST_HANDLE < CONTEXT_HANDLE_MAX
    ensures MStarts(Starting(n)) == n && MRun(prog, Starting(n)).Running? && MRun(prog, Starting(n)).s.cct.Idle() == FIRST_HANDLE + n
  {
    if n > 0 {
      StartingRuns(prog, n - 1);
      assert Starting(n) == Starting(n - 1) + [MStart];
      assert Starting(n)[..n - 1] == Starting(n - 1);
    }
  }

  ghost predicate StaysInTable(prog: seq<Shadow>, n: nat) {
    forall es :: MStarts(es) <= n ==> MRun(prog, es) != OutOfTable
  }

  /** All accesses stay within the lists exactly as long as no more threads are started than they have
      entries: thread number 32, the 33rd, is let through by the check. */
  lemma TableFitsExactlyIf(prog: seq<Shadow>, n: nat)
    requires IsProgram(prog) && |prog| > 1
    ensures StaysInTable(prog, n) <==> n <= SPEEDUP_THREADS
  {
    if n <= SPEEDUP_THREADS {
      forall es | MStarts(es) <= n ensures MRun(prog, es) != OutOfTable {
        ThreadsStarted(prog, es);
      }
    } else {
      var es := Starting(SPEEDUP_THREADS + 1);
      StartingRuns(prog, SPEEDUP_THREADS + 1);
      ThreadsStarted(prog, es);
      MemoChangesOnlyShapes(prog, es);
      BlockEventAgrees(prog, es, SPEEDUP_THREADS, 1);
      assert (es + [MBlock(SPEEDUP_THREADS, 1)])[..|es|] == es;
      assert MStarts(es + [MBlock(SPEEDUP_THREADS, 1)]) == SPEEDUP_THREADS + 1;
    }
  }
}

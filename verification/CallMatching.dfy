/** Calls and returns of a thread's blocks match like brackets: what that means for the stack of
    callers, told without the stack machine. */
module CallMatching {
  import opened Options
  import opened CallingContext
  import opened ContextRuns
  import opened BatchedRuns

  predicate Calls(prog: seq<Shadow>, k: nat) {
    0 < k < |prog| && (CallDirect in prog[k].endState || CallIndirect in prog[k].endState)
  }

  predicate Returns(prog: seq<Shadow>, k: nat) {
    0 < k < |prog| && !Calls(prog, k) && Return in prog[k].endState
  }

  predicate GoesOn(prog: seq<Shadow>, k: nat) {
    0 < k < |prog| && !Calls(prog, k) && !Returns(prog, k)
  }

  /** Blocks in which every call has its return: plain blocks, and calls around such blocks */
  datatype Matched = Nothing | Plain(front: Matched, k: nat) | Called(front: Matched, call: nat, body: Matched, ret: nat)

  function Blocks(w: Matched): seq<nat> {
    match w
    case Nothing => []
    case Plain(front, k) => Blocks(front) + [k]
    case Called(front, call, body, ret) => Blocks(front) + [call] + Blocks(body) + [ret]
  }

  ghost predicate IsMatched(prog: seq<Shadow>, w: Matched) {
    match w
    case Nothing => true
    case Plain(front, k) => IsMatched(prog, front) && GoesOn(prog, k)
    case Called(front, call, body, ret) =>
      IsMatched(prog, front) && Calls(prog, call) && IsMatched(prog, body) && Returns(prog, ret)
  }

  /** The callers of the block that is executed after `ks`, whichever it is. */
  ghost function CallersNext(prog: seq<Shadow>, ks: seq<nat>): seq<nat> {
    StackOf(prog, ks).Enter(0, {}).callers
  }

  lemma NextBlock(prog: seq<Shadow>, ks: seq<nat>, k: nat)
    requires k < |prog|
    ensures StackOf(prog, ks + [k]).callers == CallersNext(prog, ks)
    ensures StackOf(prog, ks + [k]).cur == Some(k) && StackOf(prog, ks + [k]).pre == prog[k].endState
  {
    assert (ks + [k])[..|ks|] == ks;
  }

  /** A call pushes the calling block, an unmatched return at the outermost level stays there, and the
      first block of a thread has no callers. */
  lemma OneStep(prog: seq<Shadow>, ks: seq<nat>, k: nat)
    requires 0 < k < |prog|
    ensures CallersNext(prog, []) == []
    ensures Calls(prog, k) ==> CallersNext(prog, ks + [k]) == CallersNext(prog, ks) + [k]
    ensures Returns(prog, k) && CallersNext(prog, ks) == [] ==> CallersNext(prog, ks + [k]) == []
    ensures Returns(prog, k) && CallersNext(prog, ks) != [] ==>
              CallersNext(prog, ks + [k]) == CallersNext(prog, ks)[..|CallersNext(prog, ks)| - 1]
    ensures GoesOn(prog, k) ==> CallersNext(prog, ks + [k]) == CallersNext(prog, ks)
  {
    NextBlock(prog, ks, k);
  }

  /** A call, blocks that leave the callers alone, and a return */
  lemma CallAndReturn(prog: seq<Shadow>, ks: seq<nat>, call: nat, body: seq<nat>, ret: nat)
    requires Calls(prog, call) && Returns(prog, ret)
    requires CallersNext(prog, ks + [call] + body) == CallersNext(prog, ks + [call])
    ensures CallersNext(prog, ks + [call] + body + [ret]) == CallersNext(prog, ks)
  {
    OneStep(prog, ks, call);
    OneStep(prog, ks + [call] + body, ret);
    var callers := CallersNext(prog, ks);
    assert (callers + [call])[..|callers|] == callers;
  }

  /** Matched blocks leave the callers as they were. */
  lemma {:induction false} MatchedReturns(prog: seq<Shadow>, ks: seq<nat>, w: Matched)
    requires IsMatched(prog, w)
    ensures CallersNext(prog, ks + Blocks(w)) == CallersNext(prog, ks)
    decreases w
  {
    match w
    case Nothing =>
      assert ks + [] == ks;
    case Plain(front, k) =>
      MatchedReturns(prog, ks, front);
      assert ks + Blocks(w) == (ks + Blocks(front)) + [k];
      OneStep(prog, ks + Blocks(front), k);
    case Called(front, call, body, ret) =>
      MatchedReturns(prog, ks, front);
      MatchedReturns(prog, ks + Blocks(front) + [call], body);
      CallAndReturn(prog, ks + Blocks(front), call, Blocks(body), ret);
      Regroup(ks, Blocks(front), [call], Blocks(body), [ret]);
  }

  lemma Regroup(ks: seq<nat>, a: seq<nat>, b: seq<nat>, c: seq<nat>, d: seq<nat>)
    ensures ks + (a + b + c + d) == ks + a + b + c + d
  {
  }

  /** Main result: in any run of any number of threads, take a thread that executed `ks`, then blocks in
      which calls and returns match, then block `k`.  It is at the node of `k` below the same callers as
      if it had executed `k` right after `ks`: the path is that of `ks` and `k` alone. */
  lemma MatchedCallsReturn(prog: seq<Shadow>, es: seq<Event>, t: nat, ks: seq<nat>, w: Matched, k: nat)
    requires IsProgram(prog) && Run(prog, es).Some? && t < |Run(prog, es).value.threads|
    requires IsMatched(prog, w) && 0 < k < |prog| && Trace(es, t) == ks + Blocks(w) + [k]
    ensures var s := Run(prog, es).value;
      && Rooted(s.cct) && IsNode(s.cct, s.threads[t].cur)
      && Path(s.cct, s.threads[t].cur) == CallersNext(prog, ks) + [k]
  {
    RunRefinesStacks(prog, es);
    StackOfTrace(prog, es, t);
    NextBlock(prog, ks + Blocks(w), k);
    MatchedReturns(prog, ks, w);
    var s := Run(prog, es).value;
    assert Refines(s.cct, s.threads[t], StackAfter(prog, es, t));
  }
}

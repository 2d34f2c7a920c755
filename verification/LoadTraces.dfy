/** What the load profiler's tables mean for a whole trace of accesses. */
module LoadTraces {
  import opened Options
  import opened ShadowSlots
  import opened ShadowMemory
  import opened ShadowNodes
  import opened PairCounts
  import opened LoadSpy

  /** The last compared load of the trace that touched cell `c`, as a node: its context and the byte it
      read there; zero if there is none.  Integer and floating point loads share the memory. */
  ghost function LastNode(xs: seq<Access>, c: Cell): Node {
    if xs == [] then ZERO
    else
      var x := xs[|xs| - 1];
      if IsCompared(x) && Touches(x.a, |x.val|, c) then
        var i: nat :| i < |x.val| && ByteCell(x.a, i) == c;
        Node(x.cur, x.val[i])
      else LastNode(xs[..|xs| - 1], c)
  }

  /** Each byte of the load has the value it had in the last load that touched it. */
  ghost predicate RedundantLoad(xs: seq<Access>, x: Access) {
    IsCompared(x) && forall i :: 0 <= i < |x.val| ==> LastNode(xs, ByteCell(x.a, i)).value == x.val[i]
  }

  /** The first `k` bytes of `x` counted one by one, each for the pair of the last context that
      loaded it and the one that loads it now. */
  ghost function CountLoad(red: Table, xs: seq<Access>, x: Access, k: nat): Table {
    if k == 0 then red
    else Add(CountLoad(red, xs, x, k - 1), MakePair(LastNode(xs, ByteCell(x.a, k - 1)).ctxt, x.cur), 1)
  }

  /** The table of integer or floating point loads that a trace should have. */
  ghost function TraceTable(xs: seq<Access>, isFloat: bool): Table {
    if xs == [] then map[]
    else
      var front, x := xs[..|xs| - 1], xs[|xs| - 1];
      if x.isFloat == isFloat && RedundantLoad(front, x) then CountLoad(TraceTable(front, isFloat), front, x, |x.val|)
      else TraceTable(front, isFloat)
  }

  ghost function RedundantBytes(xs: seq<Access>, isFloat: bool): nat {
    if xs == [] then 0
    else
      var front, x := xs[..|xs| - 1], xs[|xs| - 1];
      RedundantBytes(front, isFloat) + if x.isFloat == isFloat && RedundantLoad(front, x) then |x.val| else 0
  }

  /** A run of the profiler's callback: the states before and after each access */
  ghost predicate IsRun(xs: seq<Access>, ss: seq<State>) {
    && |ss| == |xs| + 1 && ss[0] == State(Blank, map[], map[], 0)
    && (forall k :: 0 <= k < |xs| ==> Does(xs[k], ss[k], ss[k + 1]))
  }

  lemma FrontIsRun(xs: seq<Access>, ss: seq<State>)
    requires IsRun(xs, ss) && xs != []
    ensures IsRun(xs[..|xs| - 1], ss[..|xs|])
    ensures Does(xs[|xs| - 1], ss[|xs| - 1], ss[|xs|])
  {
    var k := |xs| - 1;
    assert Does(xs[k], ss[k], ss[k + 1]);
  }

  /** Shadow memory remembers the last load of every byte. */
  lemma {:induction false} LastNodes(xs: seq<Access>, ss: seq<State>, c: Cell)
    requires IsRun(xs, ss)
    ensures NodeAt(ss[|xs|].m, c) == LastNode(xs, c)
    decreases |xs|
  {
    if xs != [] {
      var x := xs[|xs| - 1];
      FrontIsRun(xs, ss);
      LastNodes(xs[..|xs| - 1], ss[..|xs|], c);
      ComparedIs(x);
      if IsCompared(x) && Touches(x.a, |x.val|, c) {
        var i: nat :| i < |x.val| && ByteCell(x.a, i) == c && LastNode(xs, c) == Node(x.cur, x.val[i]);
        assert At(ss[|xs|].m, ByteCell(x.a, i)) == Some(Node(x.cur, x.val[i]));
      }
    }
  }

  lemma {:induction false} CountLoadIs(red: Table, xs: seq<Access>, m: Flat<Node>, x: Access, k: nat)
    requires forall c :: NodeAt(m, c) == LastNode(xs, c)
    ensures CountLoad(red, xs, x, k) == AddBytes(red, m, x.a, x.cur, k)
  {
    if k > 0 {
      CountLoadIs(red, xs, m, x, k - 1);
      assert NodeAt(m, ByteCell(x.a, k - 1)) == LastNode(xs, ByteCell(x.a, k - 1));
    }
  }

  lemma RedundantIs(xs: seq<Access>, m: Flat<Node>, x: Access)
    requires IsCompared(x) && forall c :: NodeAt(m, c) == LastNode(xs, c)
    ensures RedundantLoad(xs, x) <==> Redundant(m, x.a, x.val)
  {
    assert forall i :: 0 <= i < |x.val| ==> NodeAt(m, ByteCell(x.a, i)) == LastNode(xs, ByteCell(x.a, i));
  }

  /** One more compared load of its kind */
  lemma TableNext(front: seq<Access>, x: Access, s: State, s': State)
    requires Does(x, s, s') && IsCompared(x) && s.Red(x.isFloat) == TraceTable(front, x.isFloat)
    requires forall c :: NodeAt(s.m, c) == LastNode(front, c)
    ensures s'.Red(x.isFloat) == TraceTable(front + [x], x.isFloat)
  {
    assert (front + [x])[..|front|] == front;
    ComparedIs(x);
    RedundantIs(front, s.m, x);
    CountLoadIs(TraceTable(front, x.isFloat), front, s.m, x, |x.val|);
  }

  lemma {:induction false} EachTable(xs: seq<Access>, ss: seq<State>, isFloat: bool)
    requires IsRun(xs, ss)
    ensures ss[|xs|].Red(isFloat) == TraceTable(xs, isFloat)
    decreases |xs|
  {
    if xs != [] {
      var front, x, m := xs[..|xs| - 1], xs[|xs| - 1], ss[|xs| - 1].m;
      FrontIsRun(xs, ss);
      EachTable(front, ss[..|xs|], isFloat);
      assert xs == front + [x];
      if x.isFloat == isFloat && IsCompared(x) {
        forall c ensures NodeAt(m, c) == LastNode(front, c) {
          LastNodes(front, ss[..|xs|], c);
        }
        TableNext(front, x, ss[|xs| - 1], ss[|xs|]);
      } else {
        LoadLeaves(x, ss[|xs| - 1], ss[|xs|]);
      }
    }
  }

  /** After any trace of accesses, integer and floating point loads of all sizes mixed, each of the
      profiler's two tables counts exactly the bytes of its redundant loads, each for the last context
      that loaded the byte before and the one that loaded it then. */
  lemma TableOfTrace(xs: seq<Access>, ss: seq<State>)
    requires IsRun(xs, ss)
    ensures ss[|xs|].red == TraceTable(xs, false) && ss[|xs|].approxRed == TraceTable(xs, true)
  {
    EachTable(xs, ss, false);
    EachTable(xs, ss, true);
  }

  lemma {:induction false} CountLoadTotal(red: Table, xs: seq<Access>, x: Access, k: nat)
    ensures Total(CountLoad(red, xs, x, k)) == Total(red) + k
  {
    if k > 0 {
      CountLoadTotal(red, xs, x, k - 1);
      AddTotal(CountLoad(red, xs, x, k - 1), MakePair(LastNode(xs, ByteCell(x.a, k - 1)).ctxt, x.cur), 1);
    }
  }

  lemma {:induction false} TotalOfTable(xs: seq<Access>, isFloat: bool)
    ensures Total(TraceTable(xs, isFloat)) == RedundantBytes(xs, isFloat)
  {
    if xs != [] {
      var front, x := xs[..|xs| - 1], xs[|xs| - 1];
      TotalOfTable(front, isFloat);
      CountLoadTotal(TraceTable(front, isFloat), front, x, |x.val|);
    }
  }

  /** The bytes of all loads, compared or not */
  function BytesRead(xs: seq<Access>): nat {
    if xs == [] then 0 else BytesRead(xs[..|xs| - 1]) + if xs[|xs| - 1].isRead then |xs[|xs| - 1].val| else 0
  }

  /** The counts of each table add up to its redundant bytes, and both together are at most the bytes
      loaded: the fractions the profiler reports are between 0 and 1. */
  lemma {:induction false} TotalOfTrace(xs: seq<Access>, ss: seq<State>)
    requires IsRun(xs, ss)
    ensures Total(ss[|xs|].red) == RedundantBytes(xs, false) && Total(ss[|xs|].approxRed) == RedundantBytes(xs, true)
    ensures ss[|xs|].bytes == BytesRead(xs)
    ensures Total(ss[|xs|].red) + Total(ss[|xs|].approxRed) <= ss[|xs|].bytes
  {
    TableOfTrace(xs, ss);
    TotalOfTable(xs, false);
    TotalOfTable(xs, true);
    AtMostLoaded(xs, ss);
  }

  lemma {:induction false} AtMostLoaded(xs: seq<Access>, ss: seq<State>)
    requires IsRun(xs, ss)
    ensures ss[|xs|].bytes == BytesRead(xs)
    ensures RedundantBytes(xs, false) + RedundantBytes(xs, true) <= ss[|xs|].bytes
    decreases |xs|
  {
    if xs != [] {
      FrontIsRun(xs, ss);
      ComparedIs(xs[|xs| - 1]);
      AtMostLoaded(xs[..|xs| - 1], ss[..|xs|]);
    }
  }
}

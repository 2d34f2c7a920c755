/** Batched mode: blocks are collected in a per-thread buffer of 256 entries and turned into
    tree nodes later, in a loop.  Batching changes when a block is processed, nothing else. */
module BatchedRuns {
  import opened Options
  import opened CallingContext
  import opened ContextRuns

  const BUFFER_SIZE: nat := 256

  /** Arguments of the client's end-of-block callback. */
  datatype BbEnd = BbEnd(start: nat, slots: nat)

  predicate BlockKeys(prog: seq<Shadow>, ks: seq<nat>) {
    forall i :: 0 <= i < |ks| ==> 0 < ks[i] < |prog|
  }

  // ----- one flush ------------------------------------------------------------------

  /** What the flush loop carries along: `pre` is the key of the previous block. */
  datatype Flushed = Flushed(cct: Cct, thread: Thread, pre: nat, ends: seq<BbEnd>)

  function StartOf(c: Cct, n: nat): nat {
    if n < |c.nodes| then c.nodes[n].start else 0
  }

  /** One round of the loop in `per_thread_refresh_bb_cache`: report the previous block, then
      find or create the node of the next one. */
  function FlushBlock(prog: seq<Shadow>, f: Flushed, k: nat): Option<Flushed>
    requires f.pre < |prog| && k < |prog|
  {
    var ended := BbEnd(StartOf(f.cct, f.thread.cur), prog[f.pre].slots);
    match BlockStep(prog, f.cct, f.thread.(pre := prog[f.pre].endState), k)
    case None => None
    case Some(r) => Some(Flushed(r.cct, r.thread, k, f.ends + [ended]))
  }

  function FlushBlocks(prog: seq<Shadow>, f: Flushed, ks: seq<nat>): (r: Option<Flushed>)
    requires f.pre < |prog| && BlockKeys(prog, ks)
    ensures r.Some? ==> r.value.pre == if ks == [] then f.pre else ks[|ks| - 1]
  {
    if ks == [] then Some(f)
    else
      match FlushBlocks(prog, f, ks[..|ks| - 1])
      case None => None
      case Some(g) => FlushBlock(prog, g, ks[|ks| - 1])
  }

  // ----- runs -----------------------------------------------------------------------

  /** `pending` are the buffered keys; until the first flush the cursor is at entry 0. */
  datatype Buffer = Buffer(pre: nat, pending: seq<nat>, first: bool, ends: seq<BbEnd>) {
    function Cursor(): nat { if first then 0 else 1 + |pending| }

    /** The inline stub calls the flush when the entry it filled is the first or the last. */
    predicate FlushAfterAppend() { Cursor() == 0 || Cursor() == BUFFER_SIZE - 1 }
  }

  datatype Batched = Batched(cct: Cct, threads: seq<Thread>, buffers: seq<Buffer>)

  /** Threads start, execute blocks, and may be told to flush at any time. */
  datatype BatchEvent = BStart | BBlock(t: nat, k: nat) | BRefresh(t: nat)

  predicate BPossible(prog: seq<Shadow>, b: Batched, e: BatchEvent) {
    && |b.buffers| == |b.threads|
    && (!e.BStart? ==> e.t < |b.threads|)
    && (e.BBlock? ==> 0 < e.k < |prog|)
  }

  ghost predicate Flushable(prog: seq<Shadow>, b: Batched, t: nat, ks: seq<nat>) {
    && |b.buffers| == |b.threads| && t < |b.threads|
    && b.buffers[t].pre < |prog| && BlockKeys(prog, ks)
  }

  /** Flushing `ks` for thread `t`; an empty buffer is left alone. */
  function Flush(prog: seq<Shadow>, b: Batched, t: nat, ks: seq<nat>): Option<Batched>
    requires Flushable(prog, b, t, ks)
  {
    if ks == [] then Some(b)
    else
      match FlushBlocks(prog, Flushed(b.cct, b.threads[t], b.buffers[t].pre, b.buffers[t].ends), ks)
      case None => None
      case Some(g) =>
        Some(Batched(g.cct, b.threads[t := g.thread],
                     b.buffers[t := Buffer(g.pre, [], false, g.ends)]))
  }

  function BStep(prog: seq<Shadow>, b: Batched, e: BatchEvent): Option<Batched>
    requires BPossible(prog, b, e) && BufferKeys(prog, b)
  {
    match e
    case BStart =>
      (match StartThread(b.cct)
       case None => None
       case Some(r) => Some(Batched(r.cct, b.threads + [r.thread], b.buffers + [Buffer(ROOT_KEY, [], true, [])])))
    case BBlock(t, k) =>
      var buf := b.buffers[t];
      assert BufferOk(prog, buf);
      if buf.FlushAfterAppend() then Flush(prog, b, t, buf.pending + [k])
      else Some(b.(buffers := b.buffers[t := buf.(pending := buf.pending + [k])]))
    case BRefresh(t) =>
      assert BufferOk(prog, b.buffers[t]);
      Flush(prog, b, t, b.buffers[t].pending)
  }

  /** The buffer cursor stays in range, and only blocks are buffered. */
  ghost predicate BufferOk(prog: seq<Shadow>, buf: Buffer) {
    && buf.pre < |prog| && BlockKeys(prog, buf.pending)
    && |buf.pending| <= BUFFER_SIZE - 2 && (buf.first ==> buf.pending == [])
    && buf.Cursor() < BUFFER_SIZE
  }

  ghost predicate BufferKeys(prog: seq<Shadow>, b: Batched) {
    && |b.buffers| == |b.threads|
    && forall t :: 0 <= t < |b.buffers| ==> BufferOk(prog, b.buffers[t])
  }

  lemma FlushKeepsBuffers(prog: seq<Shadow>, b: Batched, t: nat, ks: seq<nat>)
    requires BufferKeys(prog, b) && t < |b.threads| && BlockKeys(prog, ks)
    ensures Flushable(prog, b, t, ks)
    ensures var r := Flush(prog, b, t, ks); r.Some? ==> BufferKeys(prog, r.value)
  {
    assert BufferOk(prog, b.buffers[t]);
    var r := Flush(prog, b, t, ks);
    if r.Some? {
      forall u | 0 <= u < |r.value.buffers| ensures BufferOk(prog, r.value.buffers[u]) {
        assert BufferOk(prog, b.buffers[u]);
      }
    }
  }

  lemma BStepKeepsBuffers(prog: seq<Shadow>, b: Batched, e: BatchEvent)
    requires |prog| > 0 && BPossible(prog, b, e) && BufferKeys(prog, b)
    ensures var r := BStep(prog, b, e); r.Some? ==> BufferKeys(prog, r.value)
  {
    if e.BStart? {
      var r := BStep(prog, b, e);
      if r.Some? {
        forall t | 0 <= t < |r.value.buffers| ensures BufferOk(prog, r.value.buffers[t]) {
          if t < |b.buffers| { assert BufferOk(prog, b.buffers[t]); }
        }
      }
    } else {
      var buf := b.buffers[e.t];
      assert BufferOk(prog, buf);
      if e.BRefresh? {
        FlushKeepsBuffers(prog, b, e.t, buf.pending);
      } else if buf.FlushAfterAppend() {
        FlushKeepsBuffers(prog, b, e.t, buf.pending + [e.k]);
      } else {
        var b' := BStep(prog, b, e).value;
        forall t | 0 <= t < |b'.buffers| ensures BufferOk(prog, b'.buffers[t]) {
          assert BufferOk(prog, b.buffers[t]);
        }
      }
    }
  }

  ghost function BRun(prog: seq<Shadow>, es: seq<BatchEvent>): (r: Option<Batched>)
    requires |prog| > 0
    ensures r.Some? ==> BufferKeys(prog, r.value)
  {
    if es == [] then Some(Batched(EMPTY_CCT, [], []))
    else
      match BRun(prog, es[..|es| - 1])
      case None => None
      case Some(b) =>
        var e := es[|es| - 1];
        if BPossible(prog, b, e) then BStepKeepsBuffers(prog, b, e); BStep(prog, b, e) else None
  }

  // ----- the direct run a batched run amounts to ----------------------------------------

  function BlocksOf(t: nat, ks: seq<nat>): seq<Event> {
    seq(|ks|, i requires 0 <= i < |ks| => Block(t, ks[i]))
  }

  /** The blocks an event makes the flush loop process. */
  ghost function Processed(b: Batched, e: BatchEvent): seq<Event> {
    match e
    case BStart => [Start]
    case BBlock(t, k) =>
      if t < |b.buffers| && b.buffers[t].FlushAfterAppend() then BlocksOf(t, b.buffers[t].pending + [k]) else []
    case BRefresh(t) =>
      if t < |b.buffers| then BlocksOf(t, b.buffers[t].pending) else []
  }

  /** Each block moved to the moment of its flush. */
  ghost function Direct(prog: seq<Shadow>, es: seq<BatchEvent>): seq<Event>
    requires |prog| > 0
  {
    if es == [] then []
    else
      var init := es[..|es| - 1];
      Direct(prog, init) + (if BRun(prog, init).Some? then Processed(BRun(prog, init).value, es[|es| - 1]) else [])
  }

  /** The blocks of one thread, in order. */
  function Trace(es: seq<Event>, t: nat): seq<nat> {
    if es == [] then []
    else
      var e := es[|es| - 1];
      Trace(es[..|es| - 1], t) + (if e.Block? && e.t == t then [e.k] else [])
  }

  function BTrace(es: seq<BatchEvent>, t: nat): seq<nat> {
    if es == [] then []
    else
      var e := es[|es| - 1];
      BTrace(es[..|es| - 1], t) + (if e.BBlock? && e.t == t then [e.k] else [])
  }

  lemma {:induction false} TraceOfBlocks(es: seq<Event>, t: nat, ks: seq<nat>, u: nat)
    ensures Trace(es + BlocksOf(t, ks), u) == Trace(es, u) + (if u == t then ks else [])
  {
    if ks == [] {
      assert es + BlocksOf(t, ks) == es;
    } else {
      var all := es + BlocksOf(t, ks);
      assert all[..|all| - 1] == es + BlocksOf(t, ks[..|ks| - 1]);
      TraceOfBlocks(es, t, ks[..|ks| - 1], u);
      assert ks == ks[..|ks| - 1] + [ks[|ks| - 1]];
    }
  }

  /** A flush is the direct machine run on the buffered blocks. */
  lemma {:induction false} FlushIsDirect(prog: seq<Shadow>, es: seq<Event>, s: System, t: nat, f: Flushed, ks: seq<nat>)
    requires Run(prog, es) == Some(s) && t < |s.threads|
    requires f.cct == s.cct && f.thread == s.threads[t]
    requires f.pre < |prog| && f.thread.pre == prog[f.pre].endState
    requires BlockKeys(prog, ks)
    ensures var r := FlushBlocks(prog, f, ks);
      && Run(prog, es + BlocksOf(t, ks)) ==
         (if r.None? then None else Some(System(r.value.cct, s.threads[t := r.value.thread])))
      && (r.Some? ==> r.value.thread.pre == prog[r.value.pre].endState)
  {
    if ks == [] {
      assert es + BlocksOf(t, ks) == es;
      assert s.threads[t := f.thread] == s.threads;
    } else {
      var init, k := ks[..|ks| - 1], ks[|ks| - 1];
      FlushIsDirect(prog, es, s, t, f, init);
      assert es + BlocksOf(t, ks) == (es + BlocksOf(t, init)) + [Block(t, k)];
      RunSnoc(prog, es + BlocksOf(t, init), Block(t, k));
      var r := FlushBlocks(prog, f, init);
      if r.Some? {
        FlushBlockIsStep(prog, System(r.value.cct, s.threads[t := r.value.thread]), t, r.value, k);
        var q := FlushBlock(prog, r.value, k);
        if q.Some? {
          assert s.threads[t := r.value.thread][t := q.value.thread] == s.threads[t := q.value.thread];
        }
      }
    }
  }

  lemma RunSnoc(prog: seq<Shadow>, es: seq<Event>, e: Event)
    ensures Run(prog, es + [e]) ==
      match Run(prog, es)
      case None => None
      case Some(s) => if Possible(prog, s, e) then Step(prog, s, e) else None
  {
    assert (es + [e])[..|es + [e]| - 1] == es;
  }

  lemma FlushBlockIsStep(prog: seq<Shadow>, s: System, t: nat, g: Flushed, k: nat)
    requires t < |s.threads| && s.cct == g.cct && s.threads[t] == g.thread
    requires g.pre < |prog| && g.thread.pre == prog[g.pre].endState && 0 < k < |prog|
    ensures var r := FlushBlock(prog, g, k);
      && Step(prog, s, Block(t, k)) ==
         (if r.None? then None else Some(System(r.value.cct, s.threads[t := r.value.thread])))
      && (r.Some? ==> r.value.thread.pre == prog[k].endState)
  {
    assert g.thread.(pre := prog[g.pre].endState) == g.thread;
  }

  ghost predicate InStep(prog: seq<Shadow>, b: Batched) {
    && BufferKeys(prog, b)
    && forall t :: 0 <= t < |b.threads| ==> b.threads[t].pre == prog[b.buffers[t].pre].endState
  }

  /** The run after `es` has processed the blocks in `Direct`, and has the rest pending. */
  ghost predicate Refined(prog: seq<Shadow>, es: seq<BatchEvent>, d: seq<Event>, b: Batched) {
    && Run(prog, d) == Some(System(b.cct, b.threads)) && InStep(prog, b)
    && forall t: nat :: BTrace(es, t) == Trace(d, t) + (if t < |b.buffers| then b.buffers[t].pending else [])
  }

  lemma StartIsDirect(prog: seq<Shadow>, init: seq<BatchEvent>, d: seq<Event>, b: Batched)
    requires IsProgram(prog) && Refined(prog, init, d, b)
    ensures var r := BStep(prog, b, BStart);
      && (r.None? <==> Run(prog, d + [Start]).None?)
      && (r.Some? ==> Refined(prog, init + [BStart], d + [Start], r.value))
  {
    var es, d' := init + [BStart], d + [Start];
    assert d'[..|d'| - 1] == d && es[..|es| - 1] == init;
    var r := BStep(prog, b, BStart);
    BStepKeepsBuffers(prog, b, BStart);
    if r.Some? {
      forall t: nat ensures BTrace(es, t) == Trace(d', t) + (if t < |r.value.buffers| then r.value.buffers[t].pending else []) {
        assert BTrace(es, t) == BTrace(init, t) && Trace(d', t) == Trace(d, t);
      }
    }
  }

  lemma BTraceSnoc(init: seq<BatchEvent>, e: BatchEvent, u: nat)
    ensures BTrace(init + [e], u) == BTrace(init, u) + (if e.BBlock? && e.t == u then [e.k] else [])
  {
    assert (init + [e])[..|init|] == init;
  }

  lemma BufferedIsDirect(prog: seq<Shadow>, init: seq<BatchEvent>, d: seq<Event>, b: Batched, t: nat, k: nat)
    requires IsProgram(prog) && Refined(prog, init, d, b) && BPossible(prog, b, BBlock(t, k))
    requires !b.buffers[t].FlushAfterAppend()
    ensures Refined(prog, init + [BBlock(t, k)], d, BStep(prog, b, BBlock(t, k)).value)
  {
    BStepKeepsBuffers(prog, b, BBlock(t, k));
    var b' := BStep(prog, b, BBlock(t, k)).value;
    forall u: nat ensures BTrace(init + [BBlock(t, k)], u) == Trace(d, u) + (if u < |b'.buffers| then b'.buffers[u].pending else []) {
      BTraceSnoc(init, BBlock(t, k), u);
      assert (Trace(d, t) + b.buffers[t].pending) + [k] == Trace(d, t) + (b.buffers[t].pending + [k]);
    }
  }

  /** Of what `es` executes, `d` has not processed `ks` of thread `t` and the pending blocks of the
      others. */
  ghost predicate Awaits(es: seq<BatchEvent>, d: seq<Event>, b: Batched, t: nat, ks: seq<nat>) {
    forall u: nat ::
      BTrace(es, u) == Trace(d, u) + (if u == t then ks else if u < |b.buffers| then b.buffers[u].pending else [])
  }

  lemma AppendedAwaits(prog: seq<Shadow>, init: seq<BatchEvent>, d: seq<Event>, b: Batched, t: nat, k: nat)
    requires Refined(prog, init, d, b) && t < |b.buffers|
    ensures Awaits(init + [BBlock(t, k)], d, b, t, b.buffers[t].pending + [k])
  {
    var ks := b.buffers[t].pending + [k];
    assert (Trace(d, t) + b.buffers[t].pending) + [k] == Trace(d, t) + ks;
    forall u: nat ensures BTrace(init + [BBlock(t, k)], u) ==
      Trace(d, u) + (if u == t then ks else if u < |b.buffers| then b.buffers[u].pending else [])
    {
      BTraceSnoc(init, BBlock(t, k), u);
    }
  }

  /** Flushing `ks` turns "executed, and `ks` still to be processed" into "processed". */
  lemma FlushRefines(prog: seq<Shadow>, es: seq<BatchEvent>, d: seq<Event>, b: Batched, t: nat, ks: seq<nat>)
    requires |prog| > 0 && InStep(prog, b) && t < |b.threads| && Run(prog, d) == Some(System(b.cct, b.threads))
    requires BlockKeys(prog, ks) && (ks == [] ==> b.buffers[t].pending == [])
    requires Awaits(es, d, b, t, ks)
    ensures Flushable(prog, b, t, ks)
    ensures var r := Flush(prog, b, t, ks);
      && (r.None? <==> Run(prog, d + BlocksOf(t, ks)).None?)
      && (r.Some? && BufferKeys(prog, r.value) ==> Refined(prog, es, d + BlocksOf(t, ks), r.value))
  {
    FlushEvent(prog, d, b, t, ks);
    var r := Flush(prog, b, t, ks);
    if r.Some? {
      forall u: nat ensures BTrace(es, u) == Trace(d + BlocksOf(t, ks), u) + (if u < |r.value.buffers| then r.value.buffers[u].pending else []) {
        assert Trace(d, u) + [] == Trace(d, u) && (Trace(d, u) + ks) + [] == Trace(d, u) + ks;
      }
    }
  }

  lemma FlushedIsDirect(prog: seq<Shadow>, init: seq<BatchEvent>, d: seq<Event>, b: Batched, t: nat, k: nat)
    requires IsProgram(prog) && Refined(prog, init, d, b) && BPossible(prog, b, BBlock(t, k))
    requires b.buffers[t].FlushAfterAppend()
    ensures var e := BBlock(t, k); var r := BStep(prog, b, e); var d' := d + BlocksOf(t, b.buffers[t].pending + [k]);
      && (r.None? <==> Run(prog, d').None?)
      && (r.Some? ==> Refined(prog, init + [e], d', r.value))
  {
    var e := BBlock(t, k);
    var ks := b.buffers[t].pending + [k];
    assert BufferOk(prog, b.buffers[t]);
    AppendedAwaits(prog, init, d, b, t, k);
    FlushRefines(prog, init + [e], d, b, t, ks);
    BStepKeepsBuffers(prog, b, e);
  }

  lemma AppendIsDirect(prog: seq<Shadow>, init: seq<BatchEvent>, d: seq<Event>, b: Batched, t: nat, k: nat)
    requires IsProgram(prog) && Refined(prog, init, d, b) && BPossible(prog, b, BBlock(t, k))
    ensures var e := BBlock(t, k); var r := BStep(prog, b, e); var d' := d + Processed(b, e);
      && (r.None? <==> Run(prog, d').None?)
      && (r.Some? ==> Refined(prog, init + [e], d', r.value))
  {
    assert BufferOk(prog, b.buffers[t]);
    if b.buffers[t].FlushAfterAppend() {
      FlushedIsDirect(prog, init, d, b, t, k);
    } else {
      assert d + [] == d;
      BufferedIsDirect(prog, init, d, b, t, k);
    }
  }

  lemma RefreshIsDirect(prog: seq<Shadow>, init: seq<BatchEvent>, d: seq<Event>, b: Batched, t: nat)
    requires IsProgram(prog) && Refined(prog, init, d, b) && BPossible(prog, b, BRefresh(t))
    ensures var e := BRefresh(t); var r := BStep(prog, b, e); var d' := d + Processed(b, e);
      && (r.None? <==> Run(prog, d').None?)
      && (r.Some? ==> Refined(prog, init + [e], d', r.value))
  {
    var e := BRefresh(t);
    assert BufferOk(prog, b.buffers[t]);
    forall u: nat ensures BTrace(init + [e], u) == BTrace(init, u) {
      BTraceSnoc(init, e, u);
    }
    FlushRefines(prog, init + [e], d, b, t, b.buffers[t].pending);
    BStepKeepsBuffers(prog, b, e);
  }

  lemma FlushEvent(prog: seq<Shadow>, d: seq<Event>, b: Batched, t: nat, ks: seq<nat>)
    requires InStep(prog, b) && t < |b.threads| && Run(prog, d) == Some(System(b.cct, b.threads))
    requires BlockKeys(prog, ks)
    ensures Flushable(prog, b, t, ks)
    ensures var r := Flush(prog, b, t, ks);
      && (r.None? <==> Run(prog, d + BlocksOf(t, ks)).None?)
      && (r.Some? ==>
            && Run(prog, d + BlocksOf(t, ks)) == Some(System(r.value.cct, r.value.threads))
            && |r.value.threads| == |b.threads|
            && (forall u :: 0 <= u < |b.threads| ==> r.value.threads[u].pre == prog[r.value.buffers[u].pre].endState))
    ensures forall u: nat :: Trace(d + BlocksOf(t, ks), u) == Trace(d, u) + (if u == t then ks else [])
  {
    assert BufferOk(prog, b.buffers[t]);
    var f := Flushed(b.cct, b.threads[t], b.buffers[t].pre, b.buffers[t].ends);
    FlushIsDirect(prog, d, System(b.cct, b.threads), t, f, ks);
    forall u: nat ensures Trace(d + BlocksOf(t, ks), u) == Trace(d, u) + (if u == t then ks else []) {
      TraceOfBlocks(d, t, ks, u);
    }
    if ks == [] {
      assert b.threads[t := b.threads[t]] == b.threads;
    }
  }

  /** Main result.  Every batched run, whatever the extra refreshes, is the direct run in
      which each block takes effect at its flush: same tree, same handle counter, same
      current nodes and previous-block state; and per thread the flushed blocks followed by
      the pending ones are exactly the blocks executed, in order. */
  lemma {:induction false} BatchedIsDirect(prog: seq<Shadow>, es: seq<BatchEvent>)
    requires IsProgram(prog) && BRun(prog, es).Some?
    ensures Refined(prog, es, Direct(prog, es), BRun(prog, es).value)
  {
    if es != [] {
      var init, e := es[..|es| - 1], es[|es| - 1];
      assert es == init + [e];
      BatchedIsDirect(prog, init);
      EventIsDirect(prog, init, e);
    }
  }

  /** The batched run ends the process exactly when the direct run does. */
  lemma EventIsDirect(prog: seq<Shadow>, init: seq<BatchEvent>, e: BatchEvent)
    requires IsProgram(prog) && BRun(prog, init).Some?
    requires Refined(prog, init, Direct(prog, init), BRun(prog, init).value)
    requires BPossible(prog, BRun(prog, init).value, e)
    ensures BRun(prog, init + [e]).None? <==> Run(prog, Direct(prog, init + [e])).None?
    ensures BRun(prog, init + [e]).Some? ==> Refined(prog, init + [e], Direct(prog, init + [e]), BRun(prog, init + [e]).value)
  {
    var es := init + [e];
    assert es[..|es| - 1] == init;
    var b := BRun(prog, init).value;
    match e
    case BStart => StartIsDirect(prog, init, Direct(prog, init), b);
    case BBlock(t, k) => AppendIsDirect(prog, init, Direct(prog, init), b, t, k);
    case BRefresh(t) => RefreshIsDirect(prog, init, Direct(prog, init), b, t);
  }

  // ----- when a flush happens ---------------------------------------------------------

  /** How many of the last blocks of a thread are pending after `n` blocks if nothing but a full buffer
      makes it flush: the first block is flushed at once, then every 255 blocks are. */
  function PendingAfter(n: nat): nat {
    if n == 0 then 0 else (n - 1) % 255
  }

  ghost predicate NoRefresh(es: seq<BatchEvent>) {
    forall i :: 0 <= i < |es| ==> !es[i].BRefresh?
  }

  /** The buffer of a thread that has executed `n` blocks */
  ghost predicate FilledBy(buf: Buffer, n: nat) {
    |buf.pending| == PendingAfter(n) && (buf.first <==> n == 0)
  }

  lemma AppendFills(prog: seq<Shadow>, b: Batched, t: nat, k: nat, n: nat)
    requires BPossible(prog, b, BBlock(t, k)) && BufferKeys(prog, b) && FilledBy(b.buffers[t], n)
    ensures var r := BStep(prog, b, BBlock(t, k)); r.Some? ==>
      && FilledBy(r.value.buffers[t], n + 1)
      && |r.value.buffers| == |b.buffers| && forall u :: 0 <= u < |b.buffers| && u != t ==> r.value.buffers[u] == b.buffers[u]
  {
    assert BufferOk(prog, b.buffers[t]);
  }

  /** Without extra refreshes, exactly the blocks since the last full buffer are pending. */
  lemma {:induction false} PendingCount(prog: seq<Shadow>, es: seq<BatchEvent>, t: nat)
    requires |prog| > 0 && BRun(prog, es).Some? && NoRefresh(es)
    ensures var b := BRun(prog, es).value;
      |b.buffers| == |b.threads| && if t < |b.buffers| then FilledBy(b.buffers[t], |BTrace(es, t)|) else BTrace(es, t) == []
  {
    if es != [] {
      var init, e := es[..|es| - 1], es[|es| - 1];
      PendingCount(prog, init, t);
      var b := BRun(prog, init).value;
      if e.BBlock? {
        PendingCount(prog, init, e.t);
        AppendFills(prog, b, e.t, e.k, |BTrace(init, e.t)|);
      }
    }
  }

  // ----- callbacks ------------------------------------------------------------------

  /** The stack machine run on the blocks of one thread. */
  function StackOf(prog: seq<Shadow>, ks: seq<nat>): Stack {
    if ks == [] then BOTTOM
    else
      var k := ks[|ks| - 1];
      var st := StackOf(prog, ks[..|ks| - 1]);
      if k < |prog| then st.Enter(k, prog[k].endState) else st
  }

  lemma {:induction false} StackOfTrace(prog: seq<Shadow>, d: seq<Event>, t: nat)
    ensures StackAfter(prog, d, t) == StackOf(prog, Trace(d, t))
  {
    if d != [] {
      var init, e := d[..|d| - 1], d[|d| - 1];
      StackOfTrace(prog, init, t);
      if e.Block? && e.t == t {
        assert Trace(d, t)[..|Trace(d, t)| - 1] == Trace(init, t);
      } else {
        assert Trace(d, t) == Trace(init, t);
      }
    }
  }

  /** The callback names the node whose call path the blocks `ks` lead to, and its slots. */
  ghost predicate Reports(prog: seq<Shadow>, c: Cct, root: nat, e: BbEnd, ks: seq<nat>)
    requires Rooted(c)
  {
    exists n: nat :: IsNode(c, n) && RootOf(c, n) == root && Path(c, n) == StackOf(prog, ks).CallPath()
                     && e == BbEnd(c.nodes[n].start, c.nodes[n].slots)
  }

  /** One callback per block before the last, in order; the first one is for the root. */
  ghost predicate Reported(prog: seq<Shadow>, c: Cct, root: nat, ends: seq<BbEnd>, ks: seq<nat>)
    requires Rooted(c)
  {
    && |ends| <= |ks| + 1
    && forall j :: 0 <= j < |ends| ==> Reports(prog, c, root, ends[j], ks[..j])
  }

  ghost predicate PreIsLast(prog: seq<Shadow>, pre: nat, ks: seq<nat>) {
    StackOf(prog, ks).cur == if pre == ROOT_KEY then None else Some(pre)
  }

  /** The callback for the block that a thread is in. */
  lemma CurrentReport(prog: seq<Shadow>, d: seq<Event>, s: System, t: nat, pre: nat)
    requires IsProgram(prog) && Run(prog, d) == Some(s) && t < |s.threads| && pre < |prog|
    requires PreIsLast(prog, pre, Trace(d, t))
    ensures SystemInv(prog, s)
    ensures Reports(prog, s.cct, s.threads[t].root, BbEnd(StartOf(s.cct, s.threads[t].cur), prog[pre].slots), Trace(d, t))
  {
    RunRefinesStacks(prog, d);
    StackOfTrace(prog, d, t);
    var n := s.threads[t].cur;
    assert ThreadInv(s.cct, s.threads[t]) && Refines(s.cct, s.threads[t], StackAfter(prog, d, t));
    ParentPath(s.cct, n);
    assert NodeTiled(prog, s.cct, n) && NodeRooted(s.cct, n);
    if pre != ROOT_KEY {
      assert Path(s.cct, n)[|Path(s.cct, n)| - 1] == s.cct.nodes[n].key;
    }
    assert IsNode(s.cct, n);
  }

  lemma ReportsPersist(prog: seq<Shadow>, c: Cct, c': Cct, root: nat, ends: seq<BbEnd>, ks: seq<nat>, k: nat)
    requires Rooted(c) && Rooted(c') && c.nodes <= c'.nodes && Reported(prog, c, root, ends, ks)
    ensures Reported(prog, c', root, ends, ks) && Reported(prog, c', root, ends, ks + [k])
  {
    forall j | 0 <= j < |ends| ensures Reports(prog, c', root, ends[j], ks[..j]) && (ks + [k])[..j] == ks[..j] {
      assert Reports(prog, c, root, ends[j], ks[..j]);
      var n: nat :| IsNode(c, n) && RootOf(c, n) == root && Path(c, n) == StackOf(prog, ks[..j]).CallPath()
                     && ends[j] == BbEnd(c.nodes[n].start, c.nodes[n].slots);
      ExtendsKeepsPath(c, c', n);
      assert c'.nodes[n] == c.nodes[n];
    }
  }

  lemma ReportsSnoc(prog: seq<Shadow>, c: Cct, root: nat, ends: seq<BbEnd>, ks: seq<nat>, e: BbEnd)
    requires Rooted(c) && Reported(prog, c, root, ends, ks) && |ends| == |ks| && Reports(prog, c, root, e, ks)
    ensures Reported(prog, c, root, ends + [e], ks)
  {
    assert ks[..|ks|] == ks;
  }

  /** Thread `t` of a run stands at `f`, and every block it has left is reported. */
  ghost predicate Reporting(prog: seq<Shadow>, d: seq<Event>, s: System, t: nat, f: Flushed) {
    && Run(prog, d) == Some(s) && t < |s.threads| && f.cct == s.cct && f.thread == s.threads[t]
    && f.pre < |prog| && f.thread.pre == prog[f.pre].endState
    && Rooted(s.cct) && Reported(prog, s.cct, f.thread.root, f.ends, Trace(d, t)) && |f.ends| == |Trace(d, t)|
    && PreIsLast(prog, f.pre, Trace(d, t))
  }

  /** The run in which thread `t` has also executed `ks`. */
  ghost predicate ReportingAfter(prog: seq<Shadow>, d: seq<Event>, s: System, t: nat, ks: seq<nat>, g: Flushed)
    requires t < |s.threads|
  {
    && Reporting(prog, d + BlocksOf(t, ks), System(g.cct, s.threads[t := g.thread]), t, g)
    && s.cct.nodes <= g.cct.nodes && g.thread.root == s.threads[t].root
  }

  lemma FlushBlockReports(prog: seq<Shadow>, d: seq<Event>, s: System, t: nat, g: Flushed, k: nat)
    requires IsProgram(prog) && Reporting(prog, d, s, t, g) && 0 < k < |prog|
    ensures var r := FlushBlock(prog, g, k);
      r.Some? ==> && Reporting(prog, d + [Block(t, k)], System(r.value.cct, s.threads[t := r.value.thread]), t, r.value)
                  && s.cct.nodes <= r.value.cct.nodes && r.value.thread.root == g.thread.root
  {
    RunRefinesStacks(prog, d);
    RunSnoc(prog, d, Block(t, k));
    FlushBlockIsStep(prog, s, t, g, k);
    BlockEventStep(prog, d, s, t, k);
    var r := FlushBlock(prog, g, k);
    if r.Some? {
      TraceNext(d, t, k);
      EndsNext(prog, d, s, t, g, r.value, k);
      StackNext(prog, Trace(d, t), k);
    }
  }

  lemma TraceNext(d: seq<Event>, t: nat, k: nat)
    ensures Trace(d + [Block(t, k)], t) == Trace(d, t) + [k]
  {
    assert (d + [Block(t, k)])[..|d|] == d;
  }

  lemma StackNext(prog: seq<Shadow>, ks: seq<nat>, k: nat)
    requires 0 < k < |prog|
    ensures PreIsLast(prog, k, ks + [k])
  {
    assert (ks + [k])[..|ks|] == ks;
  }

  /** The flush loop reports the block it leaves. */
  lemma EndsNext(prog: seq<Shadow>, d: seq<Event>, s: System, t: nat, g: Flushed, r: Flushed, k: nat)
    requires IsProgram(prog) && Reporting(prog, d, s, t, g)
    requires Rooted(r.cct) && s.cct.nodes <= r.cct.nodes
    requires r.ends == g.ends + [BbEnd(StartOf(s.cct, g.thread.cur), prog[g.pre].slots)]
    ensures Reported(prog, r.cct, g.thread.root, r.ends, Trace(d, t) + [k])
  {
    CurrentReport(prog, d, s, t, g.pre);
    var ks := Trace(d, t);
    ReportsSnoc(prog, s.cct, g.thread.root, g.ends, ks, BbEnd(StartOf(s.cct, g.thread.cur), prog[g.pre].slots));
    ReportsPersist(prog, s.cct, r.cct, g.thread.root, r.ends, ks, k);
  }

  /** A flush reports every block it leaves. */
  lemma {:induction false} FlushReports(prog: seq<Shadow>, d: seq<Event>, s: System, t: nat, f: Flushed, ks: seq<nat>)
    requires IsProgram(prog) && Reporting(prog, d, s, t, f) && BlockKeys(prog, ks)
    ensures FlushBlocks(prog, f, ks).Some? ==> ReportingAfter(prog, d, s, t, ks, FlushBlocks(prog, f, ks).value)
  {
    if ks == [] {
      assert d + BlocksOf(t, ks) == d;
      assert s.threads[t := f.thread] == s.threads;
    } else {
      var init, k := ks[..|ks| - 1], ks[|ks| - 1];
      FlushReports(prog, d, s, t, f, init);
      assert init + [k] == ks;
      var g := FlushBlocks(prog, f, init);
      if g.Some? {
        FlushReportsStep(prog, d, s, t, init, g.value, k);
      }
    }
  }

  lemma FlushReportsStep(prog: seq<Shadow>, d: seq<Event>, s: System, t: nat, init: seq<nat>, g: Flushed, k: nat)
    requires IsProgram(prog) && t < |s.threads| && ReportingAfter(prog, d, s, t, init, g) && 0 < k < |prog|
    ensures FlushBlock(prog, g, k).Some? ==> ReportingAfter(prog, d, s, t, init + [k], FlushBlock(prog, g, k).value)
  {
    var s' := System(g.cct, s.threads[t := g.thread]);
    FlushBlockReports(prog, d + BlocksOf(t, init), s', t, g, k);
    assert d + BlocksOf(t, init + [k]) == (d + BlocksOf(t, init)) + [Block(t, k)];
    var r := FlushBlock(prog, g, k);
    if r.Some? {
      assert s'.threads[t := r.value.thread] == s.threads[t := r.value.thread];
    }
  }

  ghost predicate AllReported(prog: seq<Shadow>, d: seq<Event>, b: Batched) {
    && Rooted(b.cct) && |b.buffers| == |b.threads|
    && forall t :: 0 <= t < |b.threads| ==> ThreadReported(prog, d, b, t)
  }

  ghost predicate ThreadReported(prog: seq<Shadow>, d: seq<Event>, b: Batched, t: nat)
    requires Rooted(b.cct) && |b.buffers| == |b.threads| && t < |b.threads|
  {
    && Reported(prog, b.cct, b.threads[t].root, b.buffers[t].ends, Trace(d, t))
    && |b.buffers[t].ends| == |Trace(d, t)|
    && PreIsLast(prog, b.buffers[t].pre, Trace(d, t))
  }

  /** A flush for thread `t` keeps the reports of all threads. */
  lemma FlushKeepsReports(prog: seq<Shadow>, d: seq<Event>, b: Batched, t: nat, ks: seq<nat>)
    requires IsProgram(prog) && InStep(prog, b) && t < |b.threads| && BlockKeys(prog, ks)
    requires Run(prog, d) == Some(System(b.cct, b.threads)) && AllReported(prog, d, b)
    ensures Flushable(prog, b, t, ks)
    ensures var r := Flush(prog, b, t, ks);
      r.Some? ==> AllReported(prog, d + BlocksOf(t, ks), r.value)
  {
    assert BufferOk(prog, b.buffers[t]) && ThreadReported(prog, d, b, t);
    var f := Flushed(b.cct, b.threads[t], b.buffers[t].pre, b.buffers[t].ends);
    FlushReports(prog, d, System(b.cct, b.threads), t, f, ks);
    var r := Flush(prog, b, t, ks);
    if ks == [] {
      assert d + BlocksOf(t, ks) == d;
    } else if r.Some? {
      forall u | 0 <= u < |b.threads| ensures ThreadReported(prog, d + BlocksOf(t, ks), r.value, u) {
        TraceOfBlocks(d, t, ks, u);
        if u != t {
          assert ThreadReported(prog, d, b, u);
          assert Trace(d, u) + [] == Trace(d, u);
          ReportsPersist(prog, b.cct, r.value.cct, b.threads[u].root, b.buffers[u].ends, Trace(d, u), 0);
        }
      }
    }
  }

  lemma {:induction false} BatchedReports(prog: seq<Shadow>, es: seq<BatchEvent>)
    requires IsProgram(prog) && BRun(prog, es).Some?
    ensures AllReported(prog, Direct(prog, es), BRun(prog, es).value)
  {
    if es != [] {
      var init, e := es[..|es| - 1], es[|es| - 1];
      BatchedReports(prog, init);
      BatchedIsDirect(prog, init);
      var b, d := BRun(prog, init).value, Direct(prog, init);
      match e
      case BStart => StartReports(prog, d, b);
      case BBlock(t, k) =>
        assert BufferOk(prog, b.buffers[t]);
        if b.buffers[t].FlushAfterAppend() {
          FlushKeepsReports(prog, d, b, t, b.buffers[t].pending + [k]);
        } else {
          assert d + [] == d;
          AppendReports(prog, d, b, t, k);
        }
      case BRefresh(t) =>
        assert BufferOk(prog, b.buffers[t]);
        FlushKeepsReports(prog, d, b, t, b.buffers[t].pending);
    }
  }

  lemma AppendReports(prog: seq<Shadow>, d: seq<Event>, b: Batched, t: nat, k: nat)
    requires AllReported(prog, d, b) && t < |b.buffers|
    ensures AllReported(prog, d, b.(buffers := b.buffers[t := b.buffers[t].(pending := b.buffers[t].pending + [k])]))
  {
    var b' := b.(buffers := b.buffers[t := b.buffers[t].(pending := b.buffers[t].pending + [k])]);
    forall u | 0 <= u < |b'.threads| ensures ThreadReported(prog, d, b', u) {
      assert ThreadReported(prog, d, b, u);
    }
  }

  lemma StartReports(prog: seq<Shadow>, d: seq<Event>, b: Batched)
    requires IsProgram(prog) && InStep(prog, b) && AllReported(prog, d, b)
    requires Run(prog, d) == Some(System(b.cct, b.threads))
    ensures var r := BStep(prog, b, BStart); r.Some? ==> AllReported(prog, d + [Start], r.value)
  {
    var r := BStep(prog, b, BStart);
    RunRefinesStacks(prog, d);
    StartKeepsInv(prog, System(b.cct, b.threads));
    if r.Some? {
      assert (d + [Start])[..|d|] == d;
      forall u | 0 <= u < |r.value.threads| ensures ThreadReported(prog, d + [Start], r.value, u) {
        assert Trace(d + [Start], u) == Trace(d, u);
        if u < |b.threads| {
          assert ThreadReported(prog, d, b, u);
          ReportsPersist(prog, b.cct, r.value.cct, b.threads[u].root, b.buffers[u].ends, Trace(d, u), 0);
        } else {
          UnstartedTrace(prog, d, u);
        }
      }
    }
  }

  /** A thread that has not started has executed nothing. */
  lemma {:induction false} UnstartedTrace(prog: seq<Shadow>, d: seq<Event>, u: nat)
    requires Run(prog, d).Some? && u >= |Run(prog, d).value.threads|
    ensures Trace(d, u) == []
  {
    if d != [] {
      UnstartedTrace(prog, d[..|d| - 1], u);
    }
  }

  /** Callbacks over a whole run: flush a thread's buffer and add the callback of its end
      (`per_thread_end_bb_cache_refresh`).  Then there is exactly one callback for the thread
      root and one for every block executed, in order, each naming the tree node of the call
      path at that block. */
  lemma EveryBlockIsReported(prog: seq<Shadow>, es: seq<BatchEvent>, t: nat)
    requires IsProgram(prog) && BRun(prog, es + [BRefresh(t)]).Some?
    ensures var b := BRun(prog, es + [BRefresh(t)]).value;
      && t < |b.threads| && b.buffers[t].pre < |prog| && Rooted(b.cct)
      && var ends := b.buffers[t].ends + [BbEnd(StartOf(b.cct, b.threads[t].cur), prog[b.buffers[t].pre].slots)];
         && |ends| == |BTrace(es, t)| + 1
         && Reported(prog, b.cct, b.threads[t].root, ends, BTrace(es, t))
  {
    var all := es + [BRefresh(t)];
    assert all[..|all| - 1] == es;
    BatchedIsDirect(prog, all);
    BatchedReports(prog, all);
    var b, d := BRun(prog, all).value, Direct(prog, all);
    var ks := BTrace(es, t);
    assert BTrace(all, t) == ks;
    assert BufferOk(prog, b.buffers[t]);
    RefreshEmpties(prog, es, t);
    assert Trace(d, t) + [] == Trace(d, t) == ks;
    assert ThreadReported(prog, d, b, t);
    CurrentReport(prog, d, System(b.cct, b.threads), t, b.buffers[t].pre);
    assert ks[..|ks|] == ks;
  }

  lemma RefreshEmpties(prog: seq<Shadow>, es: seq<BatchEvent>, t: nat)
    requires |prog| > 0 && BRun(prog, es + [BRefresh(t)]).Some?
    ensures var b := BRun(prog, es + [BRefresh(t)]).value; t < |b.buffers| && b.buffers[t].pending == []
  {
    var all := es + [BRefresh(t)];
    assert all[..|all| - 1] == es;
    var b := BRun(prog, es).value;
    assert BufferOk(prog, b.buffers[t]);
  }
}

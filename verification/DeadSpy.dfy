/** Dead stores: a byte written twice with no read in between.  Shadow memory keeps, for every
    byte, whether the last access was a write and by which context. */
module DeadSpy {
  import opened ShadowSlots
  import opened ShadowMemory
  import opened PairCounts

  const READ_ACTION: nat := 0
  const WRITE_ACTION: nat := 0xFF

  /** `mem_node_t` of the dead-store profiler */
  datatype Mark = Mark(ctxt: Handle, state: nat)

  const UNTOUCHED := Mark(0, READ_ACTION)

  ghost function MarkAt(m: Flat<Mark>, c: Cell): Mark { OrZero(m, c, UNTOUCHED) }

  /** An access to one byte: a read, or a write by context `cur` */
  datatype ByteEvent = Read(a: nat) | Write(a: nat, cur: Handle)

  /** What one byte access does to shadow memory ... */
  ghost function MemoryAfter(m: Flat<Mark>, e: ByteEvent): Flat<Mark> {
    match e
    case Read(a) => if At(m, CellOf(a)).None? then m else Stored(m, CellOf(a), MarkAt(m, CellOf(a)).(state := READ_ACTION))
    case Write(a, cur) => Stored(Created(m, PageOf(a), UNTOUCHED), CellOf(a), Mark(cur, WRITE_ACTION))
  }

  /** ... and to the table of dead writes. */
  ghost function TableAfter(dead: Table, m: Flat<Mark>, e: ByteEvent): Table {
    match e
    case Read(_) => dead
    case Write(a, cur) =>
      var n := MarkAt(m, CellOf(a));
      if n.state == WRITE_ACTION then Add(dead, MakePair(n.ctxt, cur), 1) else dead
  }

  /** The bytes of an access of `size` bytes, first to last */
  function Bytes(a: nat, size: nat, isWrite: bool, cur: Handle): (es: seq<ByteEvent>)
    ensures |es| == size
    ensures forall i :: 0 <= i < size ==> es[i].a == a + i && es[i].Write? == isWrite && (isWrite ==> es[i].cur == cur)
  {
    seq(size, i requires 0 <= i < size => if isWrite then Write(a + i, cur) else Read(a + i))
  }

  ghost function MemoryOf(m: Flat<Mark>, es: seq<ByteEvent>): Flat<Mark> {
    if es == [] then m else MemoryAfter(MemoryOf(m, es[..|es| - 1]), es[|es| - 1])
  }

  ghost function TableOf(dead: Table, m: Flat<Mark>, es: seq<ByteEvent>): Table {
    if es == [] then dead
    else TableAfter(TableOf(dead, m, es[..|es| - 1]), MemoryOf(m, es[..|es| - 1]), es[|es| - 1])
  }

  lemma OneMore(dead: Table, m: Flat<Mark>, es: seq<ByteEvent>, i: nat)
    requires i < |es|
    ensures MemoryOf(m, es[..i + 1]) == MemoryAfter(MemoryOf(m, es[..i]), es[i])
    ensures TableOf(dead, m, es[..i + 1]) == TableAfter(TableOf(dead, m, es[..i]), MemoryOf(m, es[..i]), es[i])
  {
    assert es[..i + 1][..i] == es[..i];
  }

  /** Two traces in a row */
  lemma {:induction false} InARow(dead: Table, m: Flat<Mark>, xs: seq<ByteEvent>, ys: seq<ByteEvent>)
    ensures MemoryOf(m, xs + ys) == MemoryOf(MemoryOf(m, xs), ys)
    ensures TableOf(dead, m, xs + ys) == TableOf(TableOf(dead, m, xs), MemoryOf(m, xs), ys)
    decreases |ys|
  {
    if ys == [] {
      assert xs + ys == xs;
    } else {
      InARow(dead, m, xs, ys[..|ys| - 1]);
      assert (xs + ys)[..|xs + ys| - 1] == xs + ys[..|ys| - 1];
    }
  }

  // ----- accesses -------------------------------------------------------------------

  datatype Access = Access(a: nat, size: nat, isWrite: bool, cur: Handle)

  function BytesOf(x: Access): seq<ByteEvent> { Bytes(x.a, x.size, x.isWrite, x.cur) }

  /** What a thread has after some accesses: shadow memory, `DeadMap` and `totalBytesWrite` */
  datatype State = State(m: Flat<Mark>, dead: Table, written: nat)

  ghost function After(s: State, x: Access): State {
    State(MemoryOf(s.m, BytesOf(x)), TableOf(s.dead, s.m, BytesOf(x)), s.written + if x.isWrite then x.size else 0)
  }

  // ----- the profiler ---------------------------------------------------------------

  class PerThread {
    var deadMap: Table
    var totalBytesWrite: nat

    /** `REPORT_DEAD` */
    method ReportDead(cur: Handle, last: Handle, size: nat)
      modifies `deadMap
      ensures deadMap == Add(old(deadMap), MakePair(last, cur), size)
    {
      var key := MakePair(last, cur);
      if key !in deadMap {
        deadMap := deadMap[key := size];
      } else {
        deadMap := deadMap[key := deadMap[key] + size];
      }
    }
  }

  method Record1ByteMemRead(shadow: ShadowMemory<Mark>, a: nat)
    requires shadow.Valid()
    modifies shadow.Repr
    ensures shadow.Valid() && shadow.Repr == old(shadow.Repr)
    ensures shadow.contents == MemoryAfter(old(shadow.contents), Read(a))
  {
    ghost var c := CellOf(a);
    var page, index := shadow.GetShadowAddress(a);
    if page != null {
      var n := shadow.Get(c, page, index);
      shadow.Put(c, page, index, n.(state := READ_ACTION));
    }
  }

  method Record1ByteMemWrite(pt: PerThread, shadow: ShadowMemory<Mark>, a: nat, cur: Handle)
    requires shadow.Valid() && shadow.zero == UNTOUCHED && pt !in shadow.Repr
    modifies shadow.Repr, pt`deadMap
    ensures shadow.Valid() && fresh(shadow.Repr - old(shadow.Repr))
    ensures shadow.contents == MemoryAfter(old(shadow.contents), Write(a, cur))
    ensures pt.deadMap == TableAfter(old(pt.deadMap), old(shadow.contents), Write(a, cur))
  {
    var was := SetByte(shadow, a, cur);
    if was.state == WRITE_ACTION {
      pt.ReportDead(cur, was.ctxt, 1);
    }
  }

  /** The state is set unless it is the written state, the context in any case. */
  function Written(n: Mark, cur: Handle): (r: Mark)
    ensures r == Mark(cur, WRITE_ACTION)
  {
    (if n.state == WRITE_ACTION then n else n.(state := WRITE_ACTION)).(ctxt := cur)
  }

  /** The node of `a` becomes written by `cur`; `was` is the node before. */
  method SetByte(shadow: ShadowMemory<Mark>, a: nat, cur: Handle) returns (was: Mark)
    requires shadow.Valid() && shadow.zero == UNTOUCHED
    modifies shadow.Repr
    ensures shadow.Valid() && fresh(shadow.Repr - old(shadow.Repr))
    ensures shadow.contents == MemoryAfter(old(shadow.contents), Write(a, cur))
    ensures was == MarkAt(old(shadow.contents), CellOf(a))
  {
    ghost var c := CellOf(a);
    var page, index := shadow.GetOrCreateShadowAddress(a);
    was := shadow.Get(c, page, index);
    shadow.Put(c, page, index, Written(was, cur));
  }

  method RecordNByteMemRead(shadow: ShadowMemory<Mark>, a: nat, size: nat)
    requires shadow.Valid()
    modifies shadow.Repr
    ensures shadow.Valid() && shadow.Repr == old(shadow.Repr)
    ensures shadow.contents == MemoryOf(old(shadow.contents), Bytes(a, size, false, 0))
  {
    ghost var es := Bytes(a, size, false, 0);
    var i := 0;
    while i < size
      invariant i <= size
      invariant shadow.Valid() && shadow.Repr == old(shadow.Repr)
      invariant shadow.contents == MemoryOf(old(shadow.contents), es[..i])
    {
      OneMore(map[], old(shadow.contents), es, i);
      Record1ByteMemRead(shadow, a + i);
      i := i + 1;
    }
    assert es[..size] == es;
  }

  method RecordNByteMemWrite(pt: PerThread, shadow: ShadowMemory<Mark>, a: nat, cur: Handle, size: nat)
    requires shadow.Valid() && shadow.zero == UNTOUCHED && pt !in shadow.Repr
    modifies shadow.Repr, pt`deadMap
    ensures shadow.Valid() && fresh(shadow.Repr - old(shadow.Repr))
    ensures shadow.contents == MemoryOf(old(shadow.contents), Bytes(a, size, true, cur))
    ensures pt.deadMap == TableOf(old(pt.deadMap), old(shadow.contents), Bytes(a, size, true, cur))
  {
    ghost var es, m, dead := Bytes(a, size, true, cur), shadow.contents, pt.deadMap;
    var i := 0;
    while i < size
      invariant i <= size
      invariant shadow.Valid() && fresh(shadow.Repr - old(shadow.Repr)) && pt !in shadow.Repr
      invariant shadow.contents == MemoryOf(m, es[..i])
      invariant pt.deadMap == TableOf(dead, m, es[..i])
    {
      OneMore(dead, m, es, i);
      Record1ByteMemWrite(pt, shadow, a + i, cur);
      i := i + 1;
    }
    assert es[..size] == es;
  }

  /** `trace_update_cb` */
  method TraceUpdate(pt: PerThread, shadow: ShadowMemory<Mark>, x: Access)
    requires shadow.Valid() && shadow.zero == UNTOUCHED && pt !in shadow.Repr
    modifies shadow.Repr, pt
    ensures shadow.Valid() && fresh(shadow.Repr - old(shadow.Repr))
    ensures State(shadow.contents, pt.deadMap, pt.totalBytesWrite)
         == After(old(State(shadow.contents, pt.deadMap, pt.totalBytesWrite)), x)
  {
    if x.isWrite {
      pt.totalBytesWrite := pt.totalBytesWrite + x.size;
      RecordNByteMemWrite(pt, shadow, x.a, x.cur, x.size);
    } else {
      ReadsCountNothing(pt.deadMap, shadow.contents, x.a, x.size, x.cur, x.size);
      RecordNByteMemRead(shadow, x.a, x.size);
    }
  }

  lemma {:induction false} ReadsCountNothing(dead: Table, m: Flat<Mark>, a: nat, size: nat, cur: Handle, i: nat)
    requires i <= size
    ensures TableOf(dead, m, Bytes(a, size, false, cur)[..i]) == dead
    ensures Bytes(a, size, false, cur) == Bytes(a, size, false, 0) == Bytes(a, size, false, cur)[..size]
  {
    if i > 0 {
      ReadsCountNothing(dead, m, a, size, cur, i - 1);
      OneMore(dead, m, Bytes(a, size, false, cur), i - 1);
    }
  }
}

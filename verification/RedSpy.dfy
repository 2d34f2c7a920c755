/** Redundant stores: the bytes a store is about to overwrite are kept in a slot until the store
    has happened, and then compared.  An instruction with several stores reports all its "before"
    records first, then all its "after" records. */
module RedSpy {
  import opened ShadowSlots
  import opened PairCounts

  const SLOTS: nat := 8
  const SLOT_SIZE: nat := 512

  /** A memory record of an integer store: the bytes before, or the bytes after it */
  datatype Record = Before(val: seq<nat>) | After(a: nat, val: seq<nat>, cur: Handle)

  /** What is counted: redundant bytes per pair of contexts, and the last writer of every byte */
  datatype Counts = Counts(red: Table, ctxt: map<Cell, Handle>)

  function WriterOf(ctxt: map<Cell, Handle>, c: Cell): Handle { if c in ctxt then ctxt[c] else 0 }

  /** The first `n` bytes of a store, byte by byte: one more for the pair of writers if the store
      changed nothing, and the new writer in any case. */
  function CheckBytes(k: Counts, a: nat, n: nat, cur: Handle, same: bool): Counts {
    if n == 0 then k
    else
      var k' := CheckBytes(k, a, n - 1, cur, same);
      var c := ByteCell(a, n - 1);
      Counts(if same then Add(k'.red, MakePair(WriterOf(k'.ctxt, c), cur), 1) else k'.red, k'.ctxt[c := cur])
  }

  datatype State = State(read: nat, slots: nat, buffer: seq<seq<nat>>, bytes: nat, counts: Counts)

  predicate Sized(s: State) {
    |s.buffer| == SLOTS && (forall i :: 0 <= i < SLOTS ==> |s.buffer[i]| == SLOT_SIZE)
  }

  /** `trace_update_cb` for a memory record; the slot counters are bytes. */
  function Next(s: State, r: Record): State
    requires Sized(s) && |r.val| <= SLOT_SIZE
  {
    match r
    case Before(val) =>
      s.(buffer := if s.slots < SLOTS then s.buffer[s.slots := val + s.buffer[s.slots][|val|..]] else s.buffer,
         slots := (s.slots + 1) % 256)
    case After(a, val, cur) =>
      var read := (s.read + 1) % 256;
      s.(bytes := s.bytes + |val|,
         counts := if s.read < SLOTS then CheckBytes(s.counts, a, |val|, cur, s.buffer[s.read][..|val|] == val) else s.counts,
         read := if read == s.slots then 0 else read,
         slots := if read == s.slots then 0 else s.slots)
  }

  class PerThread {
    var readBufferSlotIndex: nat
    var slotNum: nat
    const buffer: array<seq<nat>>
    var bytesWritten: nat
    var counts: Counts

    function Now(): State
      reads this, buffer
    {
      State(readBufferSlotIndex, slotNum, buffer[..], bytesWritten, counts)
    }

    method TraceUpdate(r: Record)
      requires Sized(Now()) && |r.val| <= SLOT_SIZE
      modifies this, buffer
      ensures Now() == Next(old(Now()), r) && Sized(Now())
    {
      match r
      case Before(val) =>
        if slotNum < SLOTS {
          buffer[slotNum] := val + buffer[slotNum][|val|..];
        }
        slotNum := (slotNum + 1) % 256;
      case After(a, val, cur) =>
        bytesWritten := bytesWritten + |val|;
        if readBufferSlotIndex < SLOTS {
          Check(a, |val|, cur, buffer[readBufferSlotIndex][..|val|] == val);
        }
        readBufferSlotIndex := (readBufferSlotIndex + 1) % 256;
        if readBufferSlotIndex == slotNum {
          readBufferSlotIndex, slotNum := 0, 0;
        }
    }

    /** The dispatch on the size of an integer store; large ones are handled byte by byte. */
    method Check(a: nat, n: nat, cur: Handle, same: bool)
      requires n <= SLOT_SIZE
      modifies `counts
      ensures counts == CheckBytes(old(counts), a, n, cur, same)
    {
      if n in {1, 2, 4, 8} {
        CheckNByteValueAfterWrite(a, n, cur, same);
      } else {
        EachByte(counts, a, 0, n, cur, same);
      }
    }

    /** The short cuts within a page and over a page boundary give what handling each byte by itself
        gives. */
    method CheckNByteValueAfterWrite(a: nat, n: nat, cur: Handle, same: bool)
      requires 0 < n <= SLOT_SIZE
      modifies `counts
      ensures counts == CheckBytes(old(counts), a, n, cur, same)
    {
      ghost var k := counts;
      if same && WithinPage(a, n) {
        var one := BodyContextCheck(a, n);
        if one {
          counts := counts.(red := Add(counts.red, MakePair(WriterOf(counts.ctxt, ByteCell(a, 0)), cur), n));
          OneWriter(k, a, n, n, cur);
          OnlyContexts(k, a, n, cur, counts.red);
          EachByte(counts, a, 0, n, cur, false);
        } else {
          EachByte(k, a, 0, n, cur, true);
        }
      } else if WithinPage(a, n) {
        EachByte(k, a, 0, n, cur, false);
      } else {
        var c := ByteCell(a, 0);
        assert CheckBytes(k, a, 0, cur, same) == k;
        counts := Counts(if same then Add(counts.red, MakePair(WriterOf(counts.ctxt, c), cur), 1) else counts.red,
                         counts.ctxt[c := cur]);
        EachByte(k, a, 1, n, cur, same);
      }
    }

    /** All bytes were written last by one context. */
    method BodyContextCheck(a: nat, n: nat) returns (one: bool)
      ensures one == SameWriter(counts.ctxt, a, n)
    {
      for i := 0 to n
        invariant SameWriter(counts.ctxt, a, i)
      {
        if WriterOf(counts.ctxt, ByteCell(a, i)) != WriterOf(counts.ctxt, ByteCell(a, 0)) {
          return false;
        }
      }
      return true;
    }

    /** The bytes from `from` on get their new writer; each is counted if `conditional`. */
    method EachByte(ghost k: Counts, a: nat, from: nat, n: nat, cur: Handle, conditional: bool)
      requires from <= n && counts == CheckBytes(k, a, from, cur, conditional)
      modifies `counts
      ensures counts == CheckBytes(k, a, n, cur, conditional)
    {
      for i := from to n
        invariant counts == CheckBytes(k, a, i, cur, conditional)
      {
        var c := ByteCell(a, i);
        var red := counts.red;
        if conditional {
          red := Add(red, MakePair(WriterOf(counts.ctxt, c), cur), 1);
        }
        counts := Counts(red, counts.ctxt[c := cur]);
      }
    }
  }

  // ----- the short cuts agree -------------------------------------------------------

  ghost predicate SameWriter(ctxt: map<Cell, Handle>, a: nat, n: nat) {
    forall i: nat :: i < n ==> WriterOf(ctxt, ByteCell(a, i)) == WriterOf(ctxt, ByteCell(a, 0))
  }

  /** A byte that is still to come has the writer it had. */
  lemma {:induction false} NotYetWritten(k: Counts, a: nat, i: nat, j: nat, cur: Handle, same: bool)
    requires i <= j <= SLOT_SIZE
    ensures WriterOf(CheckBytes(k, a, i, cur, same).ctxt, ByteCell(a, j)) == WriterOf(k.ctxt, ByteCell(a, j))
  {
    if i > 0 {
      NotYetWritten(k, a, i - 1, j, cur, same);
      if ByteCell(a, i - 1) == ByteCell(a, j) {
        DistinctCells(a, i - 1, j);
      }
    }
  }

  /** If all bytes have one writer, one addition counts the same as one for each of them. */
  lemma {:induction false} OneWriter(k: Counts, a: nat, i: nat, n: nat, cur: Handle)
    requires 0 < i <= n <= SLOT_SIZE && SameWriter(k.ctxt, a, n)
    ensures var r := CheckBytes(k, a, i, cur, true);
      && r.red == Add(k.red, MakePair(WriterOf(k.ctxt, ByteCell(a, 0)), cur), i)
      && r.ctxt == CheckBytes(k, a, i, cur, false).ctxt
  {
    var key := MakePair(WriterOf(k.ctxt, ByteCell(a, 0)), cur);
    NotYetWritten(k, a, i - 1, i - 1, cur, true);
    if i > 1 {
      OneWriter(k, a, i - 1, n, cur);
      AddTwice(k.red, key, i - 1, 1);
    } else {
      assert CheckBytes(k, a, 0, cur, true) == k && CheckBytes(k, a, 0, cur, false) == k;
    }
  }

  /** Without counting, the pass over the bytes depends on the contexts only. */
  lemma {:induction false} OnlyContexts(k: Counts, a: nat, n: nat, cur: Handle, red: Table)
    ensures CheckBytes(k.(red := red), a, n, cur, false) == CheckBytes(k, a, n, cur, false).(red := red)
  {
    if n > 0 {
      OnlyContexts(k, a, n - 1, cur, red);
    }
  }

  // ----- pairing --------------------------------------------------------------------

  datatype Store = Store(a: nat, before: seq<nat>, after: seq<nat>, cur: Handle)

  predicate Fits(w: Store) { |w.before| == |w.after| <= SLOT_SIZE }

  ghost predicate AllFit(ws: seq<Store>) {
    forall i :: 0 <= i < |ws| ==> Fits(ws[i])
  }

  /** What comparing each store's own bytes before and after would count. */
  ghost function CompareAll(k: Counts, ws: seq<Store>): Counts {
    if ws == [] then k
    else
      var w := ws[|ws| - 1];
      CheckBytes(CompareAll(k, ws[..|ws| - 1]), w.a, |w.after|, w.cur, w.before == w.after)
  }

  ghost function BytesOf(ws: seq<Store>): nat {
    if ws == [] then 0 else BytesOf(ws[..|ws| - 1]) + |ws[|ws| - 1].after|
  }

  ghost function UnchangedBytes(ws: seq<Store>): nat {
    if ws == [] then 0
    else UnchangedBytes(ws[..|ws| - 1]) + if ws[|ws| - 1].before == ws[|ws| - 1].after then |ws[|ws| - 1].after| else 0
  }

  /** The state after the "before" records of the first `j` stores of an instruction ... */
  ghost function Filled(s: State, ws: seq<Store>, j: nat): State
    requires Sized(s) && AllFit(ws) && j <= |ws|
    ensures Sized(Filled(s, ws, j))
  {
    if j == 0 then s else Next(Filled(s, ws, j - 1), Before(ws[j - 1].before))
  }

  /** ... and after all of them and the first `j` "after" records. */
  ghost function Drained(s: State, ws: seq<Store>, j: nat): State
    requires Sized(s) && AllFit(ws) && j <= |ws|
    ensures Sized(Drained(s, ws, j))
  {
    if j == 0 then Filled(s, ws, |ws|)
    else
      var w := ws[j - 1];
      Next(Drained(s, ws, j - 1), After(w.a, w.after, w.cur))
  }

  function Min(a: nat, b: nat): nat { if a < b then a else b }

  ghost predicate Idle(s: State) { Sized(s) && s.read == 0 && s.slots == 0 }

  lemma {:induction false} SlotsFilled(s: State, ws: seq<Store>, j: nat)
    requires Idle(s) && AllFit(ws) && j <= |ws| < 256
    ensures var f := Filled(s, ws, j);
            && f.slots == j && f.read == 0 && f.counts == s.counts && f.bytes == s.bytes
            && (forall i :: 0 <= i < j && i < SLOTS ==> f.buffer[i][..|ws[i].before|] == ws[i].before)
  {
    if j > 0 {
      SlotsFilled(s, ws, j - 1);
    }
  }

  lemma OneMoreStore(k: Counts, ws: seq<Store>, i: nat)
    requires i < |ws|
    ensures var w := ws[i];
            && CompareAll(k, ws[..i + 1]) == CheckBytes(CompareAll(k, ws[..i]), w.a, |w.after|, w.cur, w.before == w.after)
            && BytesOf(ws[..i + 1]) == BytesOf(ws[..i]) + |w.after|
  {
    assert ws[..i + 1][..i] == ws[..i];
  }

  /** One record after, in a slot that holds what was recorded before */
  lemma AfterRecord(d: State, w: Store, i: nat, k: nat)
    requires Sized(d) && Fits(w) && d.read == i < k == d.slots && k < 256
    requires i < SLOTS ==> d.buffer[i][..|w.before|] == w.before
    ensures var e := Next(d, After(w.a, w.after, w.cur));
            && e.counts == (if i < SLOTS then CheckBytes(d.counts, w.a, |w.after|, w.cur, w.before == w.after) else d.counts)
            && e.bytes == d.bytes + |w.after| && e.buffer == d.buffer
            && (if i + 1 < k then e.read == i + 1 && e.slots == k else e.read == 0 && e.slots == 0)
  {
  }

  /** Each of the first eight stores is compared with its own bytes; the others are not compared. */
  lemma {:induction false} SlotsDrained(s: State, ws: seq<Store>, j: nat, m: nat)
    requires Idle(s) && AllFit(ws) && j <= |ws| && 0 < |ws| < 256 && m == Min(j, SLOTS)
    ensures var d := Drained(s, ws, j);
            && d.counts == CompareAll(s.counts, ws[..m]) && d.bytes == s.bytes + BytesOf(ws[..j])
            && (if j < |ws| then d.read == j && d.slots == |ws| else d.read == 0 && d.slots == 0)
            && d.buffer == Filled(s, ws, |ws|).buffer
  {
    SlotsFilled(s, ws, |ws|);
    if j > 0 {
      var i := j - 1;
      SlotsDrained(s, ws, i, Min(i, SLOTS));
      OneMoreStore(s.counts, ws, i);
      AfterRecord(Drained(s, ws, i), ws[i], i, |ws|);
      assert i + 1 == j;
      assert ws[..i + 1] == ws[..j];
    }
  }

  /** An instruction with up to eight stores: the counters return to zero, and the j-th record
      after is compared with the j-th record before.  With more (up to 255), the counters return
      to zero as well, but from the ninth on nothing is compared. */
  lemma OneInstruction(s: State, ws: seq<Store>)
    requires Idle(s) && AllFit(ws) && |ws| < 256
    ensures var d := Drained(s, ws, |ws|);
            && Idle(d) && d.bytes == s.bytes + BytesOf(ws)
            && d.counts == CompareAll(s.counts, ws[..Min(|ws|, SLOTS)])
  {
    if ws != [] {
      SlotsDrained(s, ws, |ws|, Min(|ws|, SLOTS));
    }
    assert ws[..|ws|] == ws;
  }

  lemma WrapNext(n: nat)
    ensures (n % 256 + 1) % 256 == (n + 1) % 256
  {
  }

  lemma {:induction false} FilledCounters(s: State, ws: seq<Store>, j: nat)
    requires Idle(s) && AllFit(ws) && j <= |ws|
    ensures var f := Filled(s, ws, j); f.slots == j % 256 && f.read == 0 && f.bytes == s.bytes
  {
    if j > 0 {
      FilledCounters(s, ws, j - 1);
      WrapNext(j - 1);
    }
  }

  /** Where the reading counter stands after `j` of the stores, of which all but `m` fill the byte:
      it returns to zero after the first `m`, and then every 256. */
  function ReadAt(j: nat, m: nat): nat {
    if j < m then j else (j - m) % 256
  }

  lemma ReadNext(j: nat, m: nat)
    requires m < 256
    ensures var read := (ReadAt(j, m) + 1) % 256;
      var slots := if j < m then m else 0;
      ReadAt(j + 1, m) == if read == slots then 0 else read
    ensures j < m ==> (ReadAt(j, m) + 1) % 256 == j + 1
  {
    if j >= m {
      WrapNext(j - m);
    }
  }

  lemma AfterCounters(d: State, w: Store, j: nat, m: nat)
    requires Sized(d) && Fits(w) && m < 256 && d.read == ReadAt(j, m) && d.slots == if j < m then m else 0
    ensures var e := Next(d, After(w.a, w.after, w.cur));
            && e.read == ReadAt(j + 1, m) && e.slots == (if j + 1 < m then m else 0) && e.bytes == d.bytes + |w.after|
  {
    ReadNext(j, m);
  }

  /** The counters and the sum after `j` of the stores */
  ghost predicate Stand(s: State, ws: seq<Store>, j: nat, m: nat, d: State)
    requires j <= |ws|
  {
    d.read == ReadAt(j, m) && d.slots == (if j < m then m else 0) && d.bytes == s.bytes + BytesOf(ws[..j])
  }

  lemma CountersFirst(s: State, ws: seq<Store>, m: nat, f: State)
    requires Idle(s) && AllFit(ws) && m == |ws| % 256 && f == Filled(s, ws, |ws|)
    ensures Stand(s, ws, 0, m, f) && f == Drained(s, ws, 0)
  {
    FilledCounters(s, ws, |ws|);
  }

  lemma CountersNext(s: State, ws: seq<Store>, j: nat, m: nat, d: State)
    requires Sized(d) && AllFit(ws) && j < |ws| && m < 256 && Stand(s, ws, j, m, d)
    ensures Stand(s, ws, j + 1, m, Next(d, After(ws[j].a, ws[j].after, ws[j].cur)))
  {
    AfterCounters(d, ws[j], j, m);
    OneMoreStore(NO_COUNTS, ws, j);
  }

  lemma {:induction false} DrainedCounters(s: State, ws: seq<Store>, j: nat, m: nat)
    requires Idle(s) && AllFit(ws) && j <= |ws| && m < 256 && Stand(s, ws, 0, m, Drained(s, ws, 0))
    ensures Stand(s, ws, j, m, Drained(s, ws, j))
  {
    if j > 0 {
      var d := Drained(s, ws, j - 1);
      DrainedCounters(s, ws, j - 1, m);
      CountersNext(s, ws, j - 1, m, d);
    }
  }

  lemma WholeRounds(n: nat)
    ensures n % 256 <= n && ReadAt(n, n % 256) == 0
  {
  }

  /** The slot counters are bytes and wrap, but after any number of stores, also 256 and more, both are
      back at zero. */
  lemma CountersReturn(s: State, ws: seq<Store>)
    requires Idle(s) && AllFit(ws)
    ensures Filled(s, ws, |ws|).slots == |ws| % 256
    ensures Idle(Drained(s, ws, |ws|)) && Drained(s, ws, |ws|).bytes == s.bytes + BytesOf(ws)
  {
    FilledCounters(s, ws, |ws|);
    CountersFirst(s, ws, |ws| % 256, Filled(s, ws, |ws|));
    DrainedCounters(s, ws, |ws|, |ws| % 256);
    WholeRounds(|ws|);
    assert ws[..|ws|] == ws;
  }

  /** A run of instructions with any number of stores up to 255 */
  ghost function RunOf(s: State, instrs: seq<seq<Store>>): State
    requires Idle(s) && Reported(instrs)
    ensures Idle(RunOf(s, instrs))
  {
    if instrs == [] then s
    else
      var front, ws := instrs[..|instrs| - 1], instrs[|instrs| - 1];
      OneInstruction(RunOf(s, front), ws);
      Drained(RunOf(s, front), ws, |ws|)
  }

  ghost predicate Reported(instrs: seq<seq<Store>>) {
    forall i :: 0 <= i < |instrs| ==> AllFit(instrs[i]) && |instrs[i]| < 256
  }

  /** All stores of a run, in order */
  ghost function Stores(instrs: seq<seq<Store>>): seq<Store> {
    if instrs == [] then [] else Stores(instrs[..|instrs| - 1]) + instrs[|instrs| - 1]
  }

  /** The stores that are compared: the first eight of each instruction */
  ghost function ComparedStores(instrs: seq<seq<Store>>): seq<Store> {
    if instrs == [] then []
    else
      var ws := instrs[|instrs| - 1];
      ComparedStores(instrs[..|instrs| - 1]) + ws[..Min(|ws|, 8)]
  }

  lemma {:induction false} CompareMore(k: Counts, ws: seq<Store>, vs: seq<Store>)
    ensures CompareAll(k, ws + vs) == CompareAll(CompareAll(k, ws), vs)
    ensures BytesOf(ws + vs) == BytesOf(ws) + BytesOf(vs)
    decreases |vs|
  {
    if vs == [] {
      assert ws + vs == ws;
    } else {
      CompareMore(k, ws, vs[..|vs| - 1]);
      assert (ws + vs)[..|ws + vs| - 1] == ws + vs[..|vs| - 1];
    }
  }

  /** Over any run of instructions, the profile is that of comparing each of the first eight stores of
      every instruction by itself. */
  lemma {:induction false} RunComparesAll(s: State, instrs: seq<seq<Store>>)
    requires Idle(s) && Reported(instrs)
    ensures RunOf(s, instrs).counts == CompareAll(s.counts, ComparedStores(instrs))
    ensures RunOf(s, instrs).bytes == s.bytes + BytesOf(Stores(instrs))
  {
    if instrs != [] {
      var front, ws := instrs[..|instrs| - 1], instrs[|instrs| - 1];
      RunComparesAll(s, front);
      OneInstruction(RunOf(s, front), ws);
      CompareMore(s.counts, ComparedStores(front), ws[..Min(|ws|, SLOTS)]);
      CompareMore(s.counts, Stores(front), ws);
    }
  }

  // ----- what is counted ------------------------------------------------------------

  /** The context of the last store that touched cell `c`; zero if there is none */
  ghost function LastWriter(ws: seq<Store>, c: Cell): Handle {
    if ws == [] then 0
    else if Touches(ws[|ws| - 1].a, |ws[|ws| - 1].after|, c) then ws[|ws| - 1].cur
    else LastWriter(ws[..|ws| - 1], c)
  }

  /** The first `n` bytes of a store, each counted for the pair of its last writer and the writer */
  ghost function CountBytes(red: Table, ws: seq<Store>, w: Store, n: nat): Table {
    if n == 0 then red
    else Add(CountBytes(red, ws, w, n - 1), MakePair(LastWriter(ws, ByteCell(w.a, n - 1)), w.cur), 1)
  }

  /** The table a list of stores should have: the bytes of the stores that changed nothing */
  ghost function StoreTable(ws: seq<Store>): Table {
    if ws == [] then map[]
    else
      var front, w := ws[..|ws| - 1], ws[|ws| - 1];
      if w.before == w.after then CountBytes(StoreTable(front), front, w, |w.after|) else StoreTable(front)
  }

  const NO_COUNTS := Counts(map[], map[])

  lemma {:induction false} ContextsAfter(k: Counts, a: nat, n: nat, cur: Handle, same: bool, c: Cell)
    ensures WriterOf(CheckBytes(k, a, n, cur, same).ctxt, c) == if Touches(a, n, c) then cur else WriterOf(k.ctxt, c)
  {
    if n > 0 {
      ContextsAfter(k, a, n - 1, cur, same, c);
      TouchesLast(a, 0, n, c);
    }
  }

  lemma {:induction false} TableAfter(k: Counts, ws: seq<Store>, w: Store, n: nat)
    requires n <= |w.after| <= SLOT_SIZE && forall c :: WriterOf(k.ctxt, c) == LastWriter(ws, c)
    ensures CheckBytes(k, w.a, n, w.cur, true).red == CountBytes(k.red, ws, w, n)
    ensures CheckBytes(k, w.a, n, w.cur, false).red == k.red
  {
    if n > 0 {
      TableAfter(k, ws, w, n - 1);
      NotYetWritten(k, w.a, n - 1, n - 1, w.cur, true);
      var k' := CheckBytes(k, w.a, n - 1, w.cur, true);
      assert WriterOf(k'.ctxt, ByteCell(w.a, n - 1)) == LastWriter(ws, ByteCell(w.a, n - 1));
    }
  }

  /** Comparing every store by itself keeps the last writer of every cell, and counts the bytes of
      unchanged stores for the pair of last writer and writer. */
  lemma {:induction false} CompareMeans(ws: seq<Store>)
    requires AllFit(ws)
    ensures forall c :: WriterOf(CompareAll(NO_COUNTS, ws).ctxt, c) == LastWriter(ws, c)
    ensures CompareAll(NO_COUNTS, ws).red == StoreTable(ws)
  {
    if ws != [] {
      var front, w := ws[..|ws| - 1], ws[|ws| - 1];
      var k := CompareAll(NO_COUNTS, front);
      CompareMeans(front);
      forall c ensures WriterOf(CompareAll(NO_COUNTS, ws).ctxt, c) == LastWriter(ws, c) {
        ContextsAfter(k, w.a, |w.after|, w.cur, w.before == w.after, c);
      }
      assert Fits(w);
      TableAfter(k, front, w, |w.after|);
    }
  }

  lemma {:induction false} ComparedFit(instrs: seq<seq<Store>>)
    requires Reported(instrs)
    ensures AllFit(ComparedStores(instrs))
  {
    if instrs != [] {
      ComparedFit(instrs[..|instrs| - 1]);
      assert AllFit(instrs[|instrs| - 1]);
    }
  }

  /** Main result: after any run from the start, the context of every cell is that of the last compared
      store that touched it, and the table counts each byte of an unchanged store, among the first eight
      of its instruction, for that context and the storing one. */
  lemma RunCounts(s: State, instrs: seq<seq<Store>>)
    requires Idle(s) && s.counts == NO_COUNTS && Reported(instrs)
    ensures RunOf(s, instrs).counts.red == StoreTable(ComparedStores(instrs))
    ensures forall c :: WriterOf(RunOf(s, instrs).counts.ctxt, c) == LastWriter(ComparedStores(instrs), c)
    ensures Total(RunOf(s, instrs).counts.red) == UnchangedBytes(ComparedStores(instrs))
  {
    UnchangedAreCounted(NO_COUNTS, ComparedStores(instrs));
    RunComparesAll(s, instrs);
    ComparedFit(instrs);
    CompareMeans(ComparedStores(instrs));
  }

  lemma {:induction false} CheckTotal(k: Counts, a: nat, n: nat, cur: Handle, same: bool)
    ensures Total(CheckBytes(k, a, n, cur, same).red) == Total(k.red) + if same then n else 0
  {
    if n > 0 {
      CheckTotal(k, a, n - 1, cur, same);
      var k' := CheckBytes(k, a, n - 1, cur, same);
      AddTotal(k'.red, MakePair(WriterOf(k'.ctxt, ByteCell(a, n - 1)), cur), 1);
    }
  }

  /** The counts grow by exactly the sizes of the stores that changed nothing. */
  lemma {:induction false} UnchangedAreCounted(k: Counts, ws: seq<Store>)
    ensures Total(CompareAll(k, ws).red) == Total(k.red) + UnchangedBytes(ws)
    ensures UnchangedBytes(ws) <= BytesOf(ws)
  {
    if ws != [] {
      var front, w := ws[..|ws| - 1], ws[|ws| - 1];
      UnchangedAreCounted(k, front);
      CheckTotal(CompareAll(k, front), w.a, |w.after|, w.cur, w.before == w.after);
    }
  }
}

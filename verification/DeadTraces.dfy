/** What the dead-store profiler's table means for a whole trace, and the merge at thread end. */
module DeadTraces {
  import opened ShadowSlots
  import opened ShadowMemory
  import opened PairCounts
  import opened DeadSpy

  // ----- charging a trace -----------------------------------------------------------

  /** The last access to a cell. */
  datatype Last = Never | WasRead | WasWritten(writer: Handle)

  ghost function LastAccess(es: seq<ByteEvent>, c: Cell): Last {
    if es == [] then Never
    else
      var e := es[|es| - 1];
      if CellOf(e.a) != c then LastAccess(es[..|es| - 1], c)
      else match e
        case Read(_) => WasRead
        case Write(_, cur) => WasWritten(cur)
  }

  /** Byte-writes are charged to the pair (last writer, writer) exactly when the last access to the
      byte was a write. */
  ghost function Charged(es: seq<ByteEvent>): Table {
    if es == [] then map[]
    else
      var front, e := es[..|es| - 1], es[|es| - 1];
      match e
      case Read(_) => Charged(front)
      case Write(a, cur) =>
        match LastAccess(front, CellOf(a))
        case WasWritten(writer) => Add(Charged(front), MakePair(writer, cur), 1)
        case _ => Charged(front)
  }

  function Writes(es: seq<ByteEvent>): nat {
    if es == [] then 0 else Writes(es[..|es| - 1]) + if es[|es| - 1].Write? then 1 else 0
  }

  /** Writes to bytes that were not last accessed by a write. */
  ghost function LiveWrites(es: seq<ByteEvent>): nat {
    if es == [] then 0
    else
      var front, e := es[..|es| - 1], es[|es| - 1];
      LiveWrites(front) + if e.Write? && !LastAccess(front, CellOf(e.a)).WasWritten? then 1 else 0
  }

  ghost predicate Remembers(n: Mark, last: Last) {
    match last
    case WasWritten(writer) => n == Mark(writer, WRITE_ACTION)
    case _ => n.state == READ_ACTION
  }

  lemma MarkAfter(m: Flat<Mark>, e: ByteEvent, c: Cell)
    ensures CellOf(e.a) != c ==> MarkAt(MemoryAfter(m, e), c) == MarkAt(m, c)
    ensures CellOf(e.a) == c && e.Write? ==> MarkAt(MemoryAfter(m, e), c) == Mark(e.cur, WRITE_ACTION)
    ensures CellOf(e.a) == c && e.Read? ==> MarkAt(MemoryAfter(m, e), c).state == READ_ACTION
  {
    if e.Write? {
      assert MarkAt(Created(m, PageOf(e.a), UNTOUCHED), c) == MarkAt(m, c);
    }
  }

  /** Shadow memory remembers the last access to every cell: the written state and the writer
      after a write, the read state otherwise. */
  lemma {:induction false} StateIsLastAccess(es: seq<ByteEvent>, c: Cell)
    ensures Remembers(MarkAt(MemoryOf(Blank, es), c), LastAccess(es, c))
  {
    if es != [] {
      StateIsLastAccess(es[..|es| - 1], c);
      MarkAfter(MemoryOf(Blank, es[..|es| - 1]), es[|es| - 1], c);
    }
  }

  /** From empty shadow memory, the profiler's table is the charge of the trace. */
  lemma {:induction false} TableIsCharge(es: seq<ByteEvent>)
    ensures TableOf(map[], Blank, es) == Charged(es)
  {
    if es != [] {
      var front, e := es[..|es| - 1], es[|es| - 1];
      TableIsCharge(front);
      StateIsLastAccess(front, CellOf(e.a));
    }
  }

  /** Every byte-write is either charged or found its byte in the read state. */
  lemma {:induction false} WritesAreConserved(es: seq<ByteEvent>)
    ensures Writes(es) == Total(Charged(es)) + LiveWrites(es)
  {
    if es != [] {
      var front, e := es[..|es| - 1], es[|es| - 1];
      WritesAreConserved(front);
      if e.Write? && LastAccess(front, CellOf(e.a)).WasWritten? {
        AddTotal(Charged(front), MakePair(LastAccess(front, CellOf(e.a)).writer, e.cur), 1);
      }
    }
  }

  /** An access adds its size to `totalBytesWrite` if it is a write: that counts byte-writes. */
  lemma {:induction false} WritesOfAccess(es: seq<ByteEvent>, a: nat, size: nat, isWrite: bool, cur: Handle, i: nat)
    requires i <= size
    ensures Writes(es + Bytes(a, size, isWrite, cur)[..i]) == Writes(es) + if isWrite then i else 0
  {
    var bs := Bytes(a, size, isWrite, cur);
    if i == 0 {
      assert es + bs[..0] == es;
    } else {
      WritesOfAccess(es, a, size, isWrite, cur, i - 1);
      assert (es + bs[..i])[..|es| + i - 1] == es + bs[..i - 1];
    }
  }

  /** Byte-writes that found the read state in shadow memory */
  ghost function FoundRead(es: seq<ByteEvent>): nat {
    if es == [] then 0
    else
      var front, e := es[..|es| - 1], es[|es| - 1];
      FoundRead(front) + if e.Write? && MarkAt(MemoryOf(Blank, front), CellOf(e.a)).state == READ_ACTION then 1 else 0
  }

  /** These are the bytes that were not last accessed by a write. */
  lemma {:induction false} FoundReadIsLive(es: seq<ByteEvent>)
    ensures FoundRead(es) == LiveWrites(es)
  {
    if es != [] {
      var front, e := es[..|es| - 1], es[|es| - 1];
      FoundReadIsLive(front);
      StateIsLastAccess(front, CellOf(e.a));
    }
  }

  // ----- traces of accesses ---------------------------------------------------------

  /** The byte accesses of a trace */
  function AllBytes(xs: seq<Access>): seq<ByteEvent> {
    if xs == [] then [] else AllBytes(xs[..|xs| - 1]) + BytesOf(xs[|xs| - 1])
  }

  /** The profiler's state after a trace, from empty shadow memory and an empty table */
  ghost function StateAfter(xs: seq<Access>): State {
    if xs == [] then State(Blank, map[], 0) else After(StateAfter(xs[..|xs| - 1]), xs[|xs| - 1])
  }

  lemma {:induction false} StateOfTrace(xs: seq<Access>)
    ensures StateAfter(xs) == State(MemoryOf(Blank, AllBytes(xs)), TableOf(map[], Blank, AllBytes(xs)), Writes(AllBytes(xs)))
  {
    if xs != [] {
      var front, x := xs[..|xs| - 1], xs[|xs| - 1];
      StateOfTrace(front);
      InARow(map[], Blank, AllBytes(front), BytesOf(x));
      WritesOfAccess(AllBytes(front), x.a, x.size, x.isWrite, x.cur, x.size);
      assert BytesOf(x)[..x.size] == BytesOf(x);
    }
  }

  // ----- the same by accesses and addresses -----------------------------------------

  /** What the first `n` bytes of an access leave in cell `c`, where `before` was the last access */
  ghost function LastWithin(x: Access, n: nat, c: Cell, before: Last): Last {
    if Touches(x.a, n, c) then (if x.isWrite then WasWritten(x.cur) else WasRead) else before
  }

  /** The last access of the trace with an address in cell `c` */
  ghost function LastOf(xs: seq<Access>, c: Cell): Last {
    if xs == [] then Never
    else LastWithin(xs[|xs| - 1], xs[|xs| - 1].size, c, LastOf(xs[..|xs| - 1], c))
  }

  /** The last access to byte `i` of `x` before `x` came to it */
  ghost function LastBefore(xs: seq<Access>, x: Access, i: nat): Last {
    LastWithin(x, i, ByteCell(x.a, i), LastOf(xs, ByteCell(x.a, i)))
  }

  /** The first `n` bytes of a write, each charged to the pair (last writer, writer) if the last access
      to it was a write */
  ghost function ChargeBytes(dead: Table, xs: seq<Access>, x: Access, n: nat): Table {
    if n == 0 then dead
    else
      match LastBefore(xs, x, n - 1)
      case WasWritten(writer) => Add(ChargeBytes(dead, xs, x, n - 1), MakePair(writer, x.cur), 1)
      case _ => ChargeBytes(dead, xs, x, n - 1)
  }

  /** The table a trace should have. */
  ghost function ChargeOf(xs: seq<Access>): Table {
    if xs == [] then map[]
    else
      var front, x := xs[..|xs| - 1], xs[|xs| - 1];
      if x.isWrite then ChargeBytes(ChargeOf(front), front, x, x.size) else ChargeOf(front)
  }

  /** Of the first `n` bytes of a write, those whose last access was not a write */
  ghost function LiveBytes(xs: seq<Access>, x: Access, n: nat): nat {
    if n == 0 then 0 else LiveBytes(xs, x, n - 1) + if LastBefore(xs, x, n - 1).WasWritten? then 0 else 1
  }

  ghost function LiveOf(xs: seq<Access>): nat {
    if xs == [] then 0
    else
      var front, x := xs[..|xs| - 1], xs[|xs| - 1];
      LiveOf(front) + if x.isWrite then LiveBytes(front, x, x.size) else 0
  }

  lemma OneByteMore(front: seq<ByteEvent>, x: Access, n: nat)
    requires 0 < n <= x.size
    ensures var es := front + BytesOf(x)[..n];
      && es[..|es| - 1] == front + BytesOf(x)[..n - 1]
      && es[|es| - 1] == BytesOf(x)[n - 1] && CellOf(es[|es| - 1].a) == ByteCell(x.a, n - 1)
  {
  }

  /** Byte by byte along an access: what was accessed last ... */
  lemma {:induction false} LastAgrees(front: seq<ByteEvent>, xs: seq<Access>, x: Access, n: nat, c: Cell)
    requires n <= x.size && LastAccess(front, c) == LastOf(xs, c)
    ensures LastAccess(front + BytesOf(x)[..n], c) == LastWithin(x, n, c, LastOf(xs, c))
  {
    if n == 0 {
      assert front + BytesOf(x)[..0] == front;
    } else {
      LastAgrees(front, xs, x, n - 1, c);
      OneByteMore(front, x, n);
      TouchesLast(x.a, 0, n, c);
    }
  }

  /** ... what is charged ... */
  lemma {:induction false} ChargeAgrees(front: seq<ByteEvent>, xs: seq<Access>, x: Access, n: nat)
    requires n <= x.size && forall c :: LastAccess(front, c) == LastOf(xs, c)
    ensures Charged(front + BytesOf(x)[..n])
         == if x.isWrite then ChargeBytes(Charged(front), xs, x, n) else Charged(front)
  {
    if n == 0 {
      assert front + BytesOf(x)[..0] == front;
    } else {
      ChargeAgrees(front, xs, x, n - 1);
      OneByteMore(front, x, n);
      LastAgrees(front, xs, x, n - 1, ByteCell(x.a, n - 1));
    }
  }

  /** ... and what was live. */
  lemma {:induction false} LiveAgrees(front: seq<ByteEvent>, xs: seq<Access>, x: Access, n: nat)
    requires n <= x.size && forall c :: LastAccess(front, c) == LastOf(xs, c)
    ensures LiveWrites(front + BytesOf(x)[..n]) == LiveWrites(front) + if x.isWrite then LiveBytes(xs, x, n) else 0
  {
    if n == 0 {
      assert front + BytesOf(x)[..0] == front;
    } else {
      LiveAgrees(front, xs, x, n - 1);
      OneByteMore(front, x, n);
      LastAgrees(front, xs, x, n - 1, ByteCell(x.a, n - 1));
    }
  }

  /** The trace of bytes means the same as the trace of accesses. */
  lemma {:induction false} TracesAgree(xs: seq<Access>)
    ensures forall c :: LastAccess(AllBytes(xs), c) == LastOf(xs, c)
    ensures Charged(AllBytes(xs)) == ChargeOf(xs) && LiveWrites(AllBytes(xs)) == LiveOf(xs)
  {
    if xs != [] {
      var front, x := xs[..|xs| - 1], xs[|xs| - 1];
      TracesAgree(front);
      assert BytesOf(x)[..x.size] == BytesOf(x);
      forall c ensures LastAccess(AllBytes(xs), c) == LastOf(xs, c) {
        LastAgrees(AllBytes(front), front, x, x.size, c);
      }
      ChargeAgrees(AllBytes(front), front, x, x.size);
      LiveAgrees(AllBytes(front), front, x, x.size);
    }
  }

  /** Main result: after any trace of accesses, shadow memory holds for every cell whether the last
      access with an address in it was a write, and by whom; the table charges each byte of a write to
      (last writer, writer) exactly if the last access to that byte was a write; and the bytes counted as
      written are those charged and the others, which are those that found the read state. */
  lemma Accounting(xs: seq<Access>)
    ensures forall c :: Remembers(MarkAt(StateAfter(xs).m, c), LastOf(xs, c))
    ensures StateAfter(xs).dead == ChargeOf(xs)
    ensures StateAfter(xs).written == Total(StateAfter(xs).dead) + LiveOf(xs)
    ensures FoundRead(AllBytes(xs)) == LiveOf(xs)
  {
    StateOfTrace(xs);
    TracesAgree(xs);
    TableIsCharge(AllBytes(xs));
    WritesAreConserved(AllBytes(xs));
    FoundReadIsLive(AllBytes(xs));
    forall c ensures Remembers(MarkAt(StateAfter(xs).m, c), LastOf(xs, c)) {
      StateIsLastAccess(AllBytes(xs), c);
    }
  }

  // ----- thread end -----------------------------------------------------------------

  /** `MergedDeadInfo` */
  datatype DeadInfo = DeadInfo(context1: Handle, context2: Handle)

  function InfoOf(key: nat): DeadInfo { DeadInfo(DecodeDead(key), DecodeKill(key)) }

  function KeyOf(info: DeadInfo): nat { MakePair(info.context1, info.context2) }

  /** The table with 64-bit keys that the recording methods build. */
  predicate IsPairTable(m: Table) {
    forall key :: key in m ==> key < WORD32 * WORD32
  }

  /** The same counts, by pair. */
  ghost predicate IsMerged(merged: map<DeadInfo, nat>, m: Table) {
    && (forall info :: info in merged <==> KeyOf(info) in m)
    && (forall info :: info in merged ==> merged[info] == m[KeyOf(info)])
  }

  lemma KeysAreInfos(key: nat, info: DeadInfo)
    requires key < WORD32 * WORD32
    ensures InfoOf(key) == info <==> key == KeyOf(info)
  {
    PairRoundTrip(info.context1, info.context2, key);
  }

  /** Counting byte-writes keeps keys within 64 bits. */
  lemma {:induction false} ChargedKeys(es: seq<ByteEvent>)
    ensures IsPairTable(Charged(es))
  {
    if es != [] {
      var front, e := es[..|es| - 1], es[|es| - 1];
      ChargedKeys(front);
      if e.Write? && LastAccess(front, CellOf(e.a)).WasWritten? {
        PairRoundTrip(LastAccess(front, CellOf(e.a)).writer, e.cur, 0);
      }
    }
  }

  /** The counts by pair add up to the same sum. */
  lemma {:induction false} MergedTotal(merged: map<DeadInfo, nat>, m: Table)
    requires IsPairTable(m) && IsMerged(merged, m)
    ensures Total(merged) == Total(m)
    decreases |m|
  {
    if m == map[] {
      assert merged == map[] by {
        assert forall info :: info !in merged;
      }
    } else {
      var key :| key in m;
      var info := InfoOf(key);
      forall other: DeadInfo ensures KeyOf(other) == key <==> other == info {
        KeysAreInfos(key, other);
      }
      TotalSplit(m, key);
      TotalSplit(merged, info);
      MergedTotal(merged - {info}, m - {key});
    }
  }

  /** The counts of all keys but those in `left` are merged. */
  ghost predicate IsMergedBut(merged: map<DeadInfo, nat>, m: Table, left: set<nat>) {
    && (forall info :: info in merged <==> KeyOf(info) in m && KeyOf(info) !in left)
    && (forall info :: info in merged ==> merged[info] == m[KeyOf(info)])
  }

  lemma MergeNext(merged: map<DeadInfo, nat>, m: Table, left: set<nat>, key: nat)
    requires IsPairTable(m) && IsMergedBut(merged, m, left) && key in left && key in m
    ensures InfoOf(key) !in merged
    ensures IsMergedBut(merged[InfoOf(key) := m[key]], m, left - {key})
  {
    forall other: DeadInfo ensures KeyOf(other) == key <==> other == InfoOf(key) {
      KeysAreInfos(key, other);
    }
  }

  /** The first loop of `ClientThreadEnd`: takes keys apart and merges equal pairs.  No two keys
      give the same pair, so nothing is ever added up and every count survives. */
  method Merge(deadMap: Table) returns (merged: map<DeadInfo, nat>)
    requires IsPairTable(deadMap)
    ensures IsMerged(merged, deadMap)
    ensures forall dead, kill :: Count(merged, DeadInfo(dead, kill)) == Count(deadMap, MakePair(dead, kill))
    ensures Total(merged) == Total(deadMap)
  {
    merged := map[];
    var left := deadMap.Keys;
    while left != {}
      invariant left <= deadMap.Keys
      invariant IsMergedBut(merged, deadMap, left)
      decreases |left|
    {
      var key :| key in left;
      var info := InfoOf(key);
      MergeNext(merged, deadMap, left, key);
      merged := Add(merged, info, deadMap[key]);
      left := left - {key};
    }
    MergedTotal(merged, deadMap);
    forall dead, kill ensures Count(merged, DeadInfo(dead, kill)) == Count(deadMap, MakePair(dead, kill)) {
      assert KeyOf(DeadInfo(dead, kill)) == MakePair(dead, kill);
    }
  }

  class Totals {
    var grandTotBytesWrites: nat
    var gTotalDead: nat
  }

  /** `ClientThreadEnd` adds the thread's byte-writes and its dead byte-writes to the totals. */
  method ClientThreadEnd(pt: PerThread, totals: Totals)
    requires IsPairTable(pt.deadMap)
    modifies totals
    ensures totals.grandTotBytesWrites == old(totals.grandTotBytesWrites) + pt.totalBytesWrite
    ensures totals.gTotalDead == old(totals.gTotalDead) + Total(pt.deadMap)
  {
    totals.grandTotBytesWrites := totals.grandTotBytesWrites + pt.totalBytesWrite;
    var merged := Merge(pt.deadMap);
    var left := merged;
    while left != map[]
      invariant totals.gTotalDead + Total(left) == old(totals.gTotalDead) + Total(pt.deadMap)
      invariant totals.grandTotBytesWrites == old(totals.grandTotBytesWrites) + pt.totalBytesWrite
      decreases |left|
    {
      var info :| info in left;
      TotalSplit(left, info);
      totals.gTotalDead := totals.gTotalDead + left[info];
      left := left - {info};
    }
  }
}

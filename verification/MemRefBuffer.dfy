/** The buffer of memory references a thread has recorded but not yet reported, and its
    compaction at the end of a flush. */
module MemRefBuffer {

  const MEM_REF_MAX: nat := 4096

  /** An entry with address 0 is empty. */
  datatype MemRef = MemRef(slot: int, addr: nat)

  /** How many entries from `from` on, before `limit`, are filled without a gap. */
  function RunLength(s: seq<MemRef>, from: nat, limit: nat): (n: nat)
    requires from <= limit <= |s| || limit <= from
    ensures n == 0 || from + n <= limit
    ensures forall j :: from <= j < from + n ==> s[j].addr != 0
    ensures from + n < limit ==> s[from + n].addr == 0
    decreases limit - from
  {
    if from >= limit || s[from].addr == 0 then 0 else 1 + RunLength(s, from + 1, limit)
  }

  /** What the compaction makes of the buffer: the `k` entries at `start` move to the front
      and everything up to the end of the run is emptied; with `start == 0` there is nothing
      to move and the run itself is emptied. */
  function Compacted(s: seq<MemRef>, start: nat, k: nat): (r: seq<MemRef>)
    requires start + k <= |s|
    ensures |r| == |s|
  {
    seq(|s|, j requires 0 <= j < |s| =>
      if j < k && start > 0 then s[start + j]
      else if j < start + k then s[j].(addr := 0)
      else s[j])
  }

  /** The buffer while the first `d` entries of the run have been moved. */
  ghost function Moved(s: seq<MemRef>, start: nat, d: nat): (r: seq<MemRef>)
    requires start + d <= |s|
  {
    seq(|s|, j requires 0 <= j < |s| =>
      if j < d && start > 0 then s[start + j]
      else if start <= j < start + d then s[j].(addr := 0)
      else s[j])
  }

  /** Moving one more entry: copy it, then empty the place it came from. */
  lemma MovedNext(s: seq<MemRef>, start: nat, d: nat, last: nat)
    requires last == start + d < |s| && s[last].addr != 0
    ensures |Moved(s, start, d)| == |s| && Moved(s, start, d)[last] == s[last]
    ensures var now := Moved(s, start, d)[d := s[last]];
            Moved(s, start, d + 1) == now[last := now[last].(addr := 0)]
  {
  }

  /** Moves the run at `start` to the front, entry by entry; source and target may overlap. */
  method MoveRun(cache: array<MemRef>, start: nat, limit: nat) returns (last: nat)
    requires limit <= cache.Length
    modifies cache
    ensures last >= start && last - start == RunLength(old(cache[..]), start, limit)
    ensures if start <= cache.Length then last <= cache.Length && cache[..] == Moved(old(cache[..]), start, last - start)
            else last == start && cache[..] == old(cache[..])
  {
    ghost var s, d: nat := cache[..], 0;
    last := start;
    if start >= limit {
      return;
    }
    while last < limit
      invariant start <= last <= limit && d == last - start
      invariant cache[..] == Moved(s, start, d)
      invariant RunLength(s, start, limit) == d + RunLength(s, last, limit)
    {
      assert cache[last] == cache[..][last] == s[last];
      if cache[last].addr == 0 {
        break;
      }
      MovedNext(s, start, d, last);
      var target := last - start;
      assert target == d;
      ghost var next := cache[..][target := cache[last]];
      MoveEntry(cache, target, last);
      assert cache[..] == next[last := next[last].(addr := 0)] == Moved(s, start, d + 1);
      last, d := last + 1, d + 1;
    }
  }

  /** Field by field, as the two entries may be the same one. */
  method MoveEntry(cache: array<MemRef>, target: nat, source: nat)
    requires target <= source < cache.Length
    modifies cache
    ensures var now := old(cache[..])[target := old(cache[source])];
            cache[..] == now[source := now[source].(addr := 0)]
  {
    cache[target] := cache[target].(slot := cache[source].slot);
    cache[target] := cache[target].(addr := cache[source].addr);
    cache[source] := cache[source].(addr := 0);
  }

  /** The tail of `per_thread_refresh_bb_cache_and_mem_ref_cache`.  `start` is the number of
      references the reported blocks own, `refs` the number the current block may own; the
      result is the new cursor.  If the reported blocks own more references than the buffer has
      entries, the erasing loop runs off its end, and `ok` is false. */
  method Compact(cache: array<MemRef>, start: nat, refs: nat) returns (ok: bool, cursor: nat)
    requires cache.Length == MEM_REF_MAX
    modifies cache
    ensures ok == (start <= MEM_REF_MAX)
    ensures cursor == RunLength(old(cache[..]), start, if MEM_REF_MAX >= start + refs then start + refs else MEM_REF_MAX)
    ensures ok ==> start + cursor <= MEM_REF_MAX && cache[..] == Compacted(old(cache[..]), start, cursor)
  {
    ghost var s := cache[..];
    var end := start + refs;
    var limit := if MEM_REF_MAX >= end then end else MEM_REF_MAX;
    var last := MoveRun(cache, start, limit);
    cursor := last - start;
    ok := EraseUpTo(cache, cursor, start);
    if ok {
      assert cache[..] == Compacted(s, start, cursor);
    }
  }

  /** Empties the entries from `from` on, up to `end`. */
  method EraseUpTo(cache: array<MemRef>, from: nat, end: nat) returns (ok: bool)
    requires from <= cache.Length
    modifies cache
    ensures ok == (end <= cache.Length)
    ensures ok ==> forall j :: 0 <= j < cache.Length ==>
              cache[j] == if from <= j < end then old(cache[j]).(addr := 0) else old(cache[j])
  {
    var index := from;
    while index < end
      invariant from <= index <= cache.Length && (index > end ==> index == from)
      invariant forall j :: 0 <= j < cache.Length ==>
        cache[j] == if from <= j < index then old(cache[j]).(addr := 0) else old(cache[j])
    {
      if index >= cache.Length {
        return false;
      }
      cache[index] := cache[index].(addr := 0);
      index := index + 1;
    }
    return true;
  }

  /** The pending references survive the compaction exactly when some reported block owned a
      reference: with `start == 0` the copy onto itself is followed by the erasing write.  Everything
      from there to the old end of the run is emptied, and nothing behind it is touched. */
  lemma PendingSurvives(s: seq<MemRef>, start: nat, limit: nat)
    requires start <= limit <= |s|
    ensures var k := RunLength(s, start, limit);
      && start + k <= |s|
      && ((forall j :: 0 <= j < k ==> Compacted(s, start, k)[j] == s[start + j]) <==> start > 0 || k == 0)
      && (forall j :: k <= j < start + k ==> Compacted(s, start, k)[j] == s[j].(addr := 0))
      && (forall j :: start + k <= j < |s| ==> Compacted(s, start, k)[j] == s[j])
  {
    var k := RunLength(s, start, limit);
    if start == 0 && k > 0 {
      assert s[start].addr != 0 && Compacted(s, start, k)[0].addr == 0;
    }
  }

  /** For example, one reference is recorded in the first entry of the buffer and none was reported:
      the compaction counts it and erases it. */
  lemma PendingLost()
    ensures var s := [MemRef(3, 7)] + seq(MEM_REF_MAX - 1, _ => MemRef(0, 0));
            RunLength(s, 0, 1) == 1 && Compacted(s, 0, 1) == [MemRef(3, 0)] + s[1..]
  {
  }
}

/** The pool all threads allocate from without a lock of their own: an index is taken with an
    atomic increment, and a page is added under a lock when the index looks too large. */
module SharedPool {
  import opened Options
  import opened Arithmetic

  /** Where a thread is in `get_next_object`: outside; after the increment; after the unlocked
      test, about to take the lock; past the tests, about to use the object. */
  datatype Phase = Outside | Taken(index: nat) | Locking(index: nat) | Tested(index: nat)

  /** `pageSize` is `page2_size_`, `maxPages` is `page1_size_`; `returned` are the indices the
      calls have returned so far. */
  datatype Shared = Shared(pageSize: nat, maxPages: nat, pages: nat, nextIndex: nat,
                           threads: seq<Phase>, returned: seq<nat>)
  {
    /** `cur_max_index_` */
    function CurMax(): int { pages * pageSize - 1 }

    /** `max_index_` */
    function MaxIndex(): int { maxPages * pageSize - 1 }
  }

  /** The threads between the increment and the end of the locked test. */
  function InFlight(ts: seq<Phase>): nat {
    if ts == [] then 0
    else InFlight(ts[..|ts| - 1]) + (if ts[|ts| - 1].Taken? || ts[|ts| - 1].Locking? then 1 else 0)
  }

  /** One step of thread `t`; the end of the process is `None`. */
  function Step(s: Shared, t: nat): Option<Shared>
    requires t < |s.threads|
  {
    match s.threads[t]
    case Outside =>
      if s.nextIndex == s.MaxIndex() then None
      else Some(s.(nextIndex := s.nextIndex + 1, threads := s.threads[t := Taken(s.nextIndex)]))
    case Taken(i) =>
      Some(s.(threads := s.threads[t := if i >= s.CurMax() then Locking(i) else Tested(i)]))
    case Locking(i) =>
      if i < s.CurMax() then Some(s.(threads := s.threads[t := Tested(i)]))
      else if s.pages >= s.maxPages then None
      else Some(s.(pages := s.pages + 1, threads := s.threads[t := Tested(i)]))
    case Tested(i) =>
      Some(s.(threads := s.threads[t := Outside], returned := s.returned + [i]))
  }

  /** Thread numbers in the order in which they step; at most `limit` threads may be between
      the increment and the end of the locked test. */
  function Run(s: Shared, limit: nat, ts: seq<nat>): Option<Shared> {
    if ts == [] then Some(s)
    else
      match Run(s, limit, ts[..|ts| - 1])
      case None => None
      case Some(r) =>
        var t := ts[|ts| - 1];
        if t < |r.threads| && (r.threads[t].Outside? ==> InFlight(r.threads) < limit) then Step(r, t) else None
  }

  /** The pool after construction: one page, any number of threads outside. */
  function Fresh(pageSize: nat, maxPages: nat, threads: nat): Shared {
    Shared(pageSize, maxPages, 1, 0, seq(threads, _ => Outside), [])
  }

  // ----- finding an object by index ---------------------------------------------------

  datatype Location = Location(page: nat, off: nat)

  /** The index an object gets when its page is initialised. */
  function IndexOf(l: Location, page2Bits: nat): nat {
    l.page * Pow2(page2Bits) + l.off
  }

  /** `get_object_by_index`: shifting and masking by powers of two. */
  function Locate(index: nat, page1Bits: nat, page2Bits: nat): Location {
    Pow2Positive(page1Bits);
    Pow2Positive(page2Bits);
    Location((index / Pow2(page2Bits)) % Pow2(page1Bits), index % Pow2(page2Bits))
  }

  /** Looking an index up inverts the numbering ... */
  lemma LocateOfIndex(l: Location, page1Bits: nat, page2Bits: nat)
    requires l.page < Pow2(page1Bits) && l.off < Pow2(page2Bits)
    ensures Locate(IndexOf(l, page2Bits), page1Bits, page2Bits) == l
  {
    DivModUnique(l.page, l.off, Pow2(page2Bits));
    SmallMod(l.page, Pow2(page1Bits));
  }

  /** ... and the other way round: consecutive indices fill one page after the other. */
  lemma IndexOfLocate(index: nat, page1Bits: nat, page2Bits: nat)
    requires index < Pow2(page1Bits) * Pow2(page2Bits)
    ensures IndexOf(Locate(index, page1Bits, page2Bits), page2Bits) == index
    ensures Locate(index, page1Bits, page2Bits).page == index / Pow2(page2Bits)
    ensures Locate(index, page1Bits, page2Bits).off == index % Pow2(page2Bits)
  {
    Pow2Positive(page1Bits);
    Pow2Positive(page2Bits);
    PartsJoin(index, Pow2(page1Bits), Pow2(page2Bits));
    DivBelow(index, Pow2(page1Bits), Pow2(page2Bits));
    SmallMod(index / Pow2(page2Bits), Pow2(page1Bits));
  }

  lemma PartsJoin(x: nat, n: nat, d: nat)
    requires n > 0 && d > 0 && x < n * d
    ensures ((x / d) % n) * d + x % d == x
  {
    DivBelow(x, n, d);
    SmallMod(x / d, n);
    DivModParts(x, d);
  }

  lemma DivModParts(x: nat, d: nat)
    requires d > 0
    ensures (x / d) * d + x % d == x
  {
  }

  lemma DivBelow(x: nat, n: nat, d: nat)
    requires d > 0 && x < n * d
    ensures x / d < n
  {
    assert x == (x / d) * d + x % d;
    if x / d >= n {
      MulMono(n, x / d, d);
      assert false;
    }
  }

  // ----- invariant ------------------------------------------------------------------

  predicate Flying(p: Phase) { p.Taken? || p.Locking? }

  ghost predicate IsFlying(s: Shared, x: nat) {
    exists t :: 0 <= t < |s.threads| && Flying(s.threads[t]) && s.threads[t].index == x
  }

  ghost predicate Inv(s: Shared, limit: nat) {
    && s.pageSize > 0 && 0 < s.pages <= s.maxPages && InFlight(s.threads) <= limit <= s.pageSize
    && Covered(s) && InRange(s) && Distinct(s)
  }

  /** An index taken is still in flight or safely below the bound. */
  ghost predicate Covered(s: Shared) {
    forall x: nat :: x < s.nextIndex ==> IsFlying(s, x) || x < s.CurMax()
  }

  ghost predicate InRange(s: Shared) {
    && (forall t :: 0 <= t < |s.threads| && !s.threads[t].Outside? ==>
          s.threads[t].index < s.nextIndex && (s.threads[t].Tested? ==> s.threads[t].index < s.CurMax()))
    && (forall i :: 0 <= i < |s.returned| ==> s.returned[i] < s.nextIndex && s.returned[i] < s.CurMax())
  }

  ghost predicate Distinct(s: Shared) {
    && (forall t, u :: 0 <= t < u < |s.threads| && !s.threads[t].Outside? && !s.threads[u].Outside? ==>
          s.threads[t].index != s.threads[u].index)
    && (forall t, i :: 0 <= t < |s.threads| && 0 <= i < |s.returned| && !s.threads[t].Outside? ==>
          s.threads[t].index != s.returned[i])
    && (forall i, j :: 0 <= i < j < |s.returned| ==> s.returned[i] != s.returned[j])
  }

  function FlyingSet(ts: seq<Phase>): set<nat> {
    if ts == [] then {}
    else FlyingSet(ts[..|ts| - 1]) + (if Flying(ts[|ts| - 1]) then {ts[|ts| - 1].index} else {})
  }

  lemma {:induction false} FlyingSetSmall(ts: seq<Phase>)
    ensures |FlyingSet(ts)| <= InFlight(ts)
    ensures forall t :: 0 <= t < |ts| && Flying(ts[t]) ==> ts[t].index in FlyingSet(ts)
  {
    if ts != [] {
      var init := ts[..|ts| - 1];
      FlyingSetSmall(init);
      forall t | 0 <= t < |ts| && Flying(ts[t]) ensures ts[t].index in FlyingSet(ts) {
        if t < |init| { assert ts[t] == init[t]; }
      }
    }
  }

  lemma {:induction false} IntervalSize(lo: nat, n: nat, xs: set<nat>)
    requires forall x: nat :: lo <= x < lo + n ==> x in xs
    ensures |xs| >= n
  {
    if n > 0 {
      var ys := xs - {lo + n - 1};
      forall x: nat | lo <= x < lo + (n - 1) ensures x in ys { }
      IntervalSize(lo, n - 1, ys);
      assert |xs| == |ys| + 1;
    }
  }

  /** Adding one page is enough: all indices from the bound up to `k` are still in flight, so
      there are at most a page of them. */
  lemma OnePageSuffices(s: Shared, limit: nat, k: nat)
    requires Inv(s, limit) && k < s.nextIndex && k >= s.CurMax()
    ensures k < s.CurMax() + s.pageSize
  {
    var lo := s.CurMax();
    assert lo >= 0 by {
      assert s.pages * s.pageSize >= s.pageSize;
    }
    FlyingSetSmall(s.threads);
    forall x: nat | lo <= x < lo + (k - lo + 1) ensures x in FlyingSet(s.threads) {
      assert IsFlying(s, x);
    }
    IntervalSize(lo, k - lo + 1, FlyingSet(s.threads));
  }

  lemma {:induction false} InFlightUpdate(ts: seq<Phase>, t: nat, p: Phase)
    requires t < |ts|
    ensures InFlight(ts[t := p]) + (if Flying(ts[t]) then 1 else 0) == InFlight(ts) + (if Flying(p) then 1 else 0)
  {
    if t == |ts| - 1 {
      assert ts[t := p][..|ts| - 1] == ts[..|ts| - 1];
    } else {
      assert ts[t := p][..|ts| - 1] == ts[..|ts| - 1][t := p];
      InFlightUpdate(ts[..|ts| - 1], t, p);
    }
  }

  /** Indices in flight stay so, except that of the stepping thread. */
  lemma OthersFlying(s: Shared, s': Shared, t: nat, x: nat)
    requires t < |s.threads| == |s'.threads| && s'.threads == s.threads[t := s'.threads[t]]
    requires IsFlying(s, x) && (Flying(s.threads[t]) && s.threads[t].index == x ==> Flying(s'.threads[t]) && s'.threads[t].index == x)
    ensures IsFlying(s', x)
  {
    var u :| 0 <= u < |s.threads| && Flying(s.threads[u]) && s.threads[u].index == x;
    assert Flying(s'.threads[u]) && s'.threads[u].index == x;
  }

  /** The bound never falls, and exceeds the index of every thread past its test. */
  lemma StepBound(s: Shared, limit: nat, t: nat)
    requires Inv(s, limit) && t < |s.threads| && Step(s, t).Some?
    ensures var s' := Step(s, t).value;
      && s'.CurMax() >= s.CurMax() && 0 < s'.pages <= s'.maxPages
      && (s'.threads[t].Tested? ==> s'.threads[t].index < s'.CurMax())
  {
    assert (s.pages + 1) * s.pageSize == s.pages * s.pageSize + s.pageSize;
    var p := s.threads[t];
    if p.Locking? && p.index >= s.CurMax() {
      OnePageSuffices(s, limit, p.index);
    }
  }

  lemma StepCovered(s: Shared, limit: nat, t: nat)
    requires Inv(s, limit) && t < |s.threads| && Step(s, t).Some?
    ensures Covered(Step(s, t).value)
  {
    StepBound(s, limit, t);
    var s' := Step(s, t).value;
    var p := s.threads[t];
    forall x: nat | x < s'.nextIndex ensures IsFlying(s', x) || x < s'.CurMax() {
      if x == s.nextIndex {
        assert Flying(s'.threads[t]) && s'.threads[t].index == x;
      } else if IsFlying(s, x) {
        if !(Flying(p) && p.index == x) || Flying(s'.threads[t]) {
          OthersFlying(s, s', t, x);
        }
      }
    }
  }

  lemma StepInRange(s: Shared, limit: nat, t: nat)
    requires Inv(s, limit) && t < |s.threads| && Step(s, t).Some?
    ensures InRange(Step(s, t).value)
  {
    StepBound(s, limit, t);
  }

  lemma StepDistinct(s: Shared, t: nat)
    requires InRange(s) && Distinct(s) && t < |s.threads| && Step(s, t).Some?
    ensures Distinct(Step(s, t).value)
  {
  }

  lemma StepKeepsInv(s: Shared, limit: nat, t: nat)
    requires Inv(s, limit) && t < |s.threads|
    requires s.threads[t].Outside? ==> InFlight(s.threads) < limit
    ensures Step(s, t).Some? ==> Inv(Step(s, t).value, limit)
  {
    if Step(s, t).Some? {
      InFlightUpdate(s.threads, t, Step(s, t).value.threads[t]);
      StepBound(s, limit, t);
      StepCovered(s, limit, t);
      StepInRange(s, limit, t);
      StepDistinct(s, t);
    }
  }

  lemma {:induction false} RunKeepsInv(s: Shared, limit: nat, ts: seq<nat>)
    requires Inv(s, limit)
    ensures Run(s, limit, ts).Some? ==> Inv(Run(s, limit, ts).value, limit)
  {
    if ts != [] {
      RunKeepsInv(s, limit, ts[..|ts| - 1]);
      var r := Run(s, limit, ts[..|ts| - 1]);
      if r.Some? && ts[|ts| - 1] < |r.value.threads| && (r.value.threads[ts[|ts| - 1]].Outside? ==> InFlight(r.value.threads) < limit) {
        StepKeepsInv(r.value, limit, ts[|ts| - 1]);
      }
    }
  }

  lemma {:induction false} NoneInFlight(n: nat)
    ensures InFlight(seq(n, _ => Outside)) == 0
  {
    if n > 0 {
      assert seq(n, _ => Outside)[..n - 1] == seq(n - 1, _ => Outside);
      NoneInFlight(n - 1);
    }
  }

  /** Main result, over all interleavings of any number of threads, at most a page of them in
      flight: no index is returned twice, and every returned index lies on an allocated page
      although each thread adds at most one; with nobody in flight the next index does as well. */
  lemma IndicesDistinctAndAllocated(pageSize: nat, maxPages: nat, threads: nat, limit: nat, ts: seq<nat>)
    requires pageSize > 0 && maxPages > 0 && limit <= pageSize
    ensures var r := Run(Fresh(pageSize, maxPages, threads), limit, ts);
      r.Some? ==>
        && (forall i, j :: 0 <= i < j < |r.value.returned| ==> r.value.returned[i] != r.value.returned[j])
        && (forall i :: 0 <= i < |r.value.returned| ==> r.value.returned[i] < r.value.pages * r.value.pageSize)
        && (forall t :: 0 <= t < |r.value.threads| && r.value.threads[t].Tested? ==>
              r.value.threads[t].index < r.value.pages * r.value.pageSize)
        && (InFlight(r.value.threads) == 0 ==> r.value.nextIndex < r.value.pages * r.value.pageSize)
  {
    NoneInFlight(threads);
    RunKeepsInv(Fresh(pageSize, maxPages, threads), limit, ts);
    var r := Run(Fresh(pageSize, maxPages, threads), limit, ts);
    if r.Some? && InFlight(r.value.threads) == 0 {
      NoneIsFlying(r.value);
    }
  }

  /** With nobody in flight, the next index lies on a page that exists. */
  lemma NoneIsFlying(s: Shared)
    requires Covered(s) && s.CurMax() >= 0 && InFlight(s.threads) == 0
    ensures s.nextIndex <= s.CurMax()
  {
    FlyingSetSmall(s.threads);
    if s.nextIndex > 0 {
      assert !IsFlying(s, s.nextIndex - 1);
    }
  }

  // ----- no page too many -------------------------------------------------------------

  /** All pages but the last are used up, and an index is left to take. */
  ghost predicate PagesUsed(s: Shared) {
    && s.pageSize > 0 && 0 < s.pages <= s.maxPages
    && (s.pages - 1) * s.pageSize <= s.nextIndex <= s.MaxIndex()
    && forall t :: 0 <= t < |s.threads| && !s.threads[t].Outside? ==> s.threads[t].index < s.nextIndex
  }

  lemma StepUsesPages(s: Shared, t: nat)
    requires PagesUsed(s) && t < |s.threads|
    ensures Step(s, t).Some? ==> PagesUsed(Step(s, t).value)
    ensures Step(s, t).None? <==> s.threads[t].Outside? && s.nextIndex == s.maxPages * s.pageSize - 1
  {
    assert (s.pages + 1 - 1) * s.pageSize == s.pages * s.pageSize;
    MulMono(s.pages, s.maxPages, s.pageSize);
  }

  lemma {:induction false} RunUsesPages(s: Shared, limit: nat, ts: seq<nat>)
    requires PagesUsed(s)
    ensures Run(s, limit, ts).Some? ==> PagesUsed(Run(s, limit, ts).value)
  {
    if ts != [] {
      RunUsesPages(s, limit, ts[..|ts| - 1]);
      var r, t := Run(s, limit, ts[..|ts| - 1]), ts[|ts| - 1];
      if r.Some? && t < |r.value.threads| {
        StepUsesPages(r.value, t);
      }
    }
  }

  /** In every interleaving, however many threads are in flight: a page is only ever added when all
      indices of the pages before it have been taken, so no two waiting threads add one each for the same
      want; and the process ends exactly when a thread would take the last index of the last page. */
  lemma NoPageTooMany(pageSize: nat, maxPages: nat, threads: nat, limit: nat, ts: seq<nat>, t: nat)
    requires pageSize > 0 && maxPages > 0
    ensures var r := Run(Fresh(pageSize, maxPages, threads), limit, ts);
      r.Some? ==>
        && (r.value.pages - 1) * pageSize <= r.value.nextIndex < maxPages * pageSize
        && r.value.pages <= maxPages
        && (t < |r.value.threads| ==>
              (Step(r.value, t).None? <==> r.value.threads[t].Outside? && r.value.nextIndex == maxPages * pageSize - 1))
  {
    MulMono(1, maxPages, pageSize);
    var first := Fresh(pageSize, maxPages, threads);
    RunUsesPages(first, limit, ts);
    SameSizes(first, limit, ts);
    var r := Run(first, limit, ts);
    if r.Some? && t < |r.value.threads| {
      StepUsesPages(r.value, t);
    }
  }

  lemma {:induction false} SameSizes(s: Shared, limit: nat, ts: seq<nat>)
    ensures Run(s, limit, ts).Some? ==>
      Run(s, limit, ts).value.pageSize == s.pageSize && Run(s, limit, ts).value.maxPages == s.maxPages
  {
    if ts != [] {
      SameSizes(s, limit, ts[..|ts| - 1]);
    }
  }

  // ----- the bound is exact -----------------------------------------------------------

  /** Whatever the interleaving, a thread past its test has an index on a page that exists. */
  ghost predicate Safe(pageSize: nat, maxPages: nat, threads: nat, limit: nat) {
    forall ts :: var r := Run(Fresh(pageSize, maxPages, threads), limit, ts); r.Some? ==> AllOnPages(r.value)
  }

  ghost predicate AllOnPages(s: Shared) {
    forall t :: 0 <= t < |s.threads| && s.threads[t].Tested? ==> s.threads[t].index < s.pages * s.pageSize
  }

  ghost predicate Reached(first: Shared, limit: nat, s: Shared) {
    exists ts :: Run(first, limit, ts) == Some(s)
  }

  lemma ReachedNext(first: Shared, limit: nat, s: Shared, t: nat)
    requires Reached(first, limit, s) && t < |s.threads| && Step(s, t).Some?
    requires s.threads[t].Outside? ==> InFlight(s.threads) < limit
    ensures Reached(first, limit, Step(s, t).value)
  {
    var ts :| Run(first, limit, ts) == Some(s);
    assert (ts + [t])[..|ts|] == ts;
    assert Run(first, limit, ts + [t]) == Step(s, t);
  }

  /** The first `k` of `threads` threads have taken indices from `n` on, the others are outside. */
  function Batch(threads: nat, n: nat, k: nat): seq<Phase> {
    seq(threads, t => if 0 <= t < k then Taken(n + t) else Outside)
  }

  lemma {:induction false} BatchInFlight(threads: nat, n: nat, k: nat)
    requires k <= threads
    ensures InFlight(Batch(threads, n, k)) == k
  {
    if threads > 0 {
      var ts := Batch(threads, n, k);
      if k == threads {
        assert ts[..threads - 1] == Batch(threads - 1, n, k - 1);
        BatchInFlight(threads - 1, n, k - 1);
      } else {
        assert ts[..threads - 1] == Batch(threads - 1, n, k);
        BatchInFlight(threads - 1, n, k);
      }
    }
  }

  lemma BatchNext(threads: nat, n: nat, k: nat)
    requires 0 < k <= threads
    ensures Batch(threads, n, k - 1)[k - 1 := Taken(n + (k - 1))] == Batch(threads, n, k)
    ensures Batch(threads, n, k - 1)[k - 1].Outside? && InFlight(Batch(threads, n, k - 1)) == k - 1
  {
    BatchInFlight(threads, n, k - 1);
  }

  /** `k` threads take an index each, one after the other. */
  lemma {:induction false} TakeBatch(first: Shared, limit: nat, s: Shared, threads: nat, k: nat)
    requires Reached(first, limit, s) && s.threads == Batch(threads, s.nextIndex, 0) && k <= threads && k <= limit
    requires s.nextIndex + k <= s.MaxIndex()
    ensures Reached(first, limit, s.(nextIndex := s.nextIndex + k, threads := Batch(threads, s.nextIndex, k)))
  {
    if k > 0 {
      TakeBatch(first, limit, s, threads, k - 1);
      var r := s.(nextIndex := s.nextIndex + (k - 1), threads := Batch(threads, s.nextIndex, k - 1));
      BatchNext(threads, s.nextIndex, k);
      ReachedNext(first, limit, r, k - 1);
    } else {
      assert s.(nextIndex := s.nextIndex + 0, threads := Batch(threads, s.nextIndex, 0)) == s;
    }
  }

  /** The last thread of a batch finds its index at or above the bound and adds a page. */
  lemma LastAddsPage(first: Shared, limit: nat, s: Shared, threads: nat, n: nat, k: nat)
    requires Reached(first, limit, s) && s.threads == Batch(threads, n, k + 1) && k < threads
    requires n + k >= s.CurMax() && s.pages < s.maxPages
    ensures Reached(first, limit, s.(pages := s.pages + 1, threads := s.threads[k := Tested(n + k)]))
  {
    ReachedNext(first, limit, s, k);
    var r := s.(threads := s.threads[k := Locking(n + k)]);
    ReachedNext(first, limit, r, k);
    assert s.threads[k := Locking(n + k)][k := Tested(n + k)] == s.threads[k := Tested(n + k)];
  }

  /** A thread past its test returns. */
  lemma LastReturns(first: Shared, limit: nat, s: Shared, threads: nat, n: nat, k: nat)
    requires Reached(first, limit, s) && k < threads && s.threads == Batch(threads, n, k + 1)[k := Tested(n + k)]
    ensures Reached(first, limit, s.(threads := Batch(threads, n, k), returned := s.returned + [n + k]))
  {
    ReachedNext(first, limit, s, k);
    assert s.threads[k := Outside] == Batch(threads, n, k);
  }

  /** The others find their indices below the bound and return. */
  lemma {:induction false} OthersReturn(first: Shared, limit: nat, s: Shared, threads: nat, n: nat, k: nat) returns (s': Shared)
    requires Reached(first, limit, s) && s.threads == Batch(threads, n, k) && k <= threads && n + k <= s.CurMax()
    ensures Reached(first, limit, s') && s' == s.(threads := Batch(threads, 0, 0), returned := s'.returned)
    decreases k
  {
    s' := s;
    if k > 0 {
      ReachedNext(first, limit, s, k - 1);
      var r := s.(threads := s.threads[k - 1 := Tested(n + (k - 1))]);
      LastReturns(first, limit, r, threads, n, k - 1);
      var u := r.(threads := Batch(threads, n, k - 1), returned := r.returned + [n + (k - 1)]);
      s' := OthersReturn(first, limit, u, threads, n, k - 1);
    }
  }

  /** One thread alone uses up the first page but for its last object. */
  lemma {:induction false} UseUp(first: Shared, limit: nat, threads: nat, k: nat) returns (s: Shared)
    requires Reached(first, limit, first) && first.threads == Batch(threads, 0, 0) && first.nextIndex == 0
    requires threads > 0 && limit > 0 && k <= first.CurMax() <= first.MaxIndex()
    ensures Reached(first, limit, s) && s == first.(nextIndex := k, returned := s.returned)
  {
    s := first;
    if k > 0 {
      var r := UseUp(first, limit, threads, k - 1);
      TakeBatch(first, limit, r, threads, 1);
      var u := r.(nextIndex := k, threads := Batch(threads, k - 1, 1));
      s := OthersReturn(first, limit, u, threads, k - 1, 1);
    }
  }

  /** A whole page and one thread more take indices at once, the last of them adds a page. */
  lemma Burst(first: Shared, limit: nat, s: Shared, threads: nat) returns (s': Shared)
    requires Reached(first, limit, s) && s.threads == Batch(threads, 0, 0)
    requires s.pageSize > 0 && s.pageSize < threads && s.pageSize < limit && s.pages < s.maxPages
    requires s.nextIndex >= s.CurMax() - s.pageSize && s.nextIndex + s.pageSize + 1 <= s.MaxIndex()
    ensures Reached(first, limit, s')
    ensures s' == s.(nextIndex := s.nextIndex + s.pageSize + 1, pages := s.pages + 1,
                     threads := Batch(threads, s.nextIndex, s.pageSize + 1)[s.pageSize := Tested(s.nextIndex + s.pageSize)])
  {
    var k := s.pageSize;
    assert Batch(threads, 0, 0) == Batch(threads, s.nextIndex, 0);
    TakeBatch(first, limit, s, threads, k + 1);
    var r := s.(nextIndex := s.nextIndex + k + 1, threads := Batch(threads, s.nextIndex, k + 1));
    LastAddsPage(first, limit, r, threads, s.nextIndex, k);
    s' := r.(pages := s.pages + 1, threads := r.threads[k := Tested(s.nextIndex + k)]);
  }

  /** With one more thread in flight than a page has objects, a thread gets an index whose page does
      not exist: it adds one page, where two are missing. */
  lemma OneMoreIsTooMany(pageSize: nat, maxPages: nat, threads: nat, limit: nat)
    requires 0 < pageSize < threads && pageSize < limit && maxPages >= 5
    ensures !Safe(pageSize, maxPages, threads, limit)
  {
    var first := Fresh(pageSize, maxPages, threads);
    assert first.threads == Batch(threads, 0, 0);
    assert Run(first, limit, []) == Some(first);
    MulMono(5, maxPages, pageSize);
    var s := UseUp(first, limit, threads, pageSize - 1);
    s := Burst(first, limit, s, threads);
    var n := pageSize - 1;
    LastReturns(first, limit, s, threads, n, pageSize);
    s := s.(threads := Batch(threads, n, pageSize), returned := s.returned + [n + pageSize]);
    s := OthersReturn(first, limit, s, threads, n, pageSize);
    s := Burst(first, limit, s, threads);
    assert s.threads[pageSize] == Tested(3 * pageSize) && s.pages == 3;
    var ts :| Run(first, limit, ts) == Some(s);
    assert !AllOnPages(s);
  }

  lemma InFlightAtMost(ts: seq<Phase>, t: nat)
    requires t < |ts| && !Flying(ts[t])
    ensures InFlight(ts) < |ts|
  {
    InFlightUpdate(ts, t, Taken(0));
    AllInFlight(ts[t := Taken(0)]);
  }

  lemma {:induction false} AllInFlight(ts: seq<Phase>)
    ensures InFlight(ts) <= |ts|
  {
    if ts != [] {
      AllInFlight(ts[..|ts| - 1]);
    }
  }

  /** A limit the threads cannot reach is none. */
  lemma {:induction false} LimitUnused(s: Shared, limit: nat, ts: seq<nat>)
    requires |s.threads| <= limit
    ensures Run(s, limit, ts) == Run(s, |s.threads|, ts)
    ensures Run(s, limit, ts).Some? ==> |Run(s, limit, ts).value.threads| == |s.threads|
  {
    if ts != [] {
      LimitUnused(s, limit, ts[..|ts| - 1]);
      var r, t := Run(s, limit, ts[..|ts| - 1]), ts[|ts| - 1];
      if r.Some? && t < |r.value.threads| && r.value.threads[t].Outside? {
        InFlightAtMost(r.value.threads, t);
      }
    }
  }

  /** The growth rule is safe exactly if there cannot be more threads in flight than a page has
      objects, whatever the size of a page. */
  lemma SafeExactlyUpToAPage(pageSize: nat, maxPages: nat, threads: nat, limit: nat)
    requires pageSize > 0 && maxPages >= 5
    ensures Safe(pageSize, maxPages, threads, limit) <==> limit <= pageSize || threads <= pageSize
  {
    if limit <= pageSize || threads <= pageSize {
      var first, few := Fresh(pageSize, maxPages, threads), if limit <= threads then limit else threads;
      forall ts | Run(first, limit, ts).Some? ensures AllOnPages(Run(first, limit, ts).value) {
        if limit > threads {
          LimitUnused(first, limit, ts);
        }
        IndicesDistinctAndAllocated(pageSize, maxPages, threads, few, ts);
      }
    } else {
      OneMoreIsTooMany(pageSize, maxPages, threads, limit);
    }
  }

  const THREAD_MAX_NUM: nat := 8192

  /** `TSM_CACHE_PAGE1_BIT` and `TSM_CACHE_PAGE2_BIT` */
  const PAGE1_BITS: nat := 4
  const PAGE2_BITS: nat := 16

  /** Thread numbers from 0 up to the maximum are let through, one thread more than it says.  With the
      smallest page size that the constructor accepts this is one too many; with the one in use there
      is room. */
  lemma AdmittedThreads(maxPages: nat)
    requires maxPages >= 5
    ensures !Safe(THREAD_MAX_NUM, maxPages, THREAD_MAX_NUM + 1, THREAD_MAX_NUM + 1)
    ensures Safe(Pow2(PAGE2_BITS), Pow2(PAGE1_BITS), THREAD_MAX_NUM + 1, THREAD_MAX_NUM + 1)
  {
    assert Pow2(PAGE2_BITS) == 65536 && Pow2(PAGE1_BITS) == 16;
    SafeExactlyUpToAPage(THREAD_MAX_NUM, maxPages, THREAD_MAX_NUM + 1, THREAD_MAX_NUM + 1);
    SafeExactlyUpToAPage(Pow2(PAGE2_BITS), Pow2(PAGE1_BITS), THREAD_MAX_NUM + 1, THREAD_MAX_NUM + 1);
  }
}

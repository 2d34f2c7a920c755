/** The two-level object allocator on values: a global pool of pages that hands out frames
    under a lock, and per-thread caches that hand out single objects from their frames. */
module FramePool {
  import opened Options
  import opened Arithmetic

  /** `size` consecutive objects of page `page`, from offset `off` on. */
  datatype Frag = Frag(page: nat, off: nat, size: nat)

  const NO_FRAG := Frag(0, 0, 0)

  datatype Object = Object(page: nat, off: nat)

  /** `pages` is the number of allocated pages, `used` the next free offset of the last one;
      in debris mode the rest of that page is no longer touched. */
  datatype Pool = Pool(page1Size: nat, page2Size: nat, debrisMin: nat,
                       pages: nat, used: nat, debrisMode: bool, debris: seq<Frag>)

  // ----- the global pool ------------------------------------------------------------

  function AddDebris(p: Pool, f: Frag): Pool {
    if f.size < p.debrisMin then p else p.(debris := p.debris + [f])
  }

  /** `init_new_page2`; the process ends when the page table is full. */
  function NewPage(p: Pool): Option<Pool> {
    if p.pages >= p.page1Size then None else Some(p.(pages := p.pages + 1, used := 0))
  }

  function TotalSize(fs: seq<Frag>): nat {
    if fs == [] then 0 else TotalSize(fs[..|fs| - 1]) + fs[|fs| - 1].size
  }

  datatype Taken = Taken(rest: seq<Frag>, frames: seq<Frag>)

  /** Fragments from the back of the debris until there are `need` objects. */
  function TakeDebris(fs: seq<Frag>, need: int): Taken {
    if fs == [] || need <= 0 then Taken(fs, [])
    else
      var t := TakeDebris(fs[..|fs| - 1], need - fs[|fs| - 1].size);
      Taken(t.rest, [fs[|fs| - 1]] + t.frames)
  }

  datatype Refill = Refill(pool: Pool, frames: seq<Frag>)

  predicate UsesDebris(p: Pool, minNum: nat, maxFrames: nat) {
    maxFrames <= |p.debris| || TotalSize(p.debris) >= minNum
  }

  /** The pool after it has noticed that the current page is too short. */
  function LeavePage(p: Pool): Pool
    requires p.pages > 0 && p.used <= p.page2Size
  {
    AddDebris(p, Frag(p.pages - 1, p.used, p.page2Size - p.used)).(debrisMode := true)
  }

  predicate PageSuffices(p: Pool, minNum: nat) {
    !p.debrisMode && p.used <= p.page2Size && p.page2Size - p.used >= minNum
  }

  /** `init_sub_cache_frame`.  It calls itself at most once: a new page always suffices. */
  function InitSubCacheFrame(p: Pool, minNum: nat, maxFrames: nat): Option<Refill>
    requires PoolOk(p) && 0 < minNum <= p.page2Size
    decreases if PageSuffices(p, minNum) then 0 else 1
  {
    if PageSuffices(p, minNum) then
      Some(Refill(p.(used := p.used + minNum), [Frag(p.pages - 1, p.used, minNum)]))
    else
      var q := if p.debrisMode then p else LeavePage(p);
      if UsesDebris(q, minNum, maxFrames) then
        var t := TakeDebris(q.debris, minNum);
        Some(Refill(q.(debris := t.rest), t.frames))
      else
        match NewPage(q)
        case None => None
        case Some(r) => InitSubCacheFrame(r.(debrisMode := false), minNum, maxFrames)
  }

  ghost predicate FragOk(p: Pool, f: Frag) {
    f.page < p.pages && f.off + f.size <= p.page2Size
  }

  ghost predicate PoolOk(p: Pool) {
    && p.debrisMin > 0 && p.page2Size > 0 && 0 < p.pages <= p.page1Size && p.used <= p.page2Size
    && forall i :: 0 <= i < |p.debris| ==> FragOk(p, p.debris[i]) && p.debris[i].size >= p.debrisMin
  }

  // ----- a thread's cache -----------------------------------------------------------

  /** `frames` has a fixed number of entries, the filled ones first; `frame` and `num` name
      the object handed out last. */
  datatype Tls = Tls(frames: seq<Frag>, frame: nat, num: int)

  /** `cache_frame_num_` */
  function FrameCount(minNum: nat, debrisMin: nat): nat
    requires debrisMin > 0
  {
    if minNum % debrisMin > 0 then minNum / debrisMin + 1 else minNum / debrisMin
  }

  function Pad(fs: seq<Frag>, n: nat): seq<Frag>
    requires |fs| <= n
  {
    fs + seq(n - |fs|, _ => NO_FRAG)
  }

  // ----- ownership ------------------------------------------------------------------

  function Covers(f: Frag, o: Object): nat {
    if f.page == o.page && f.off <= o.off < f.off + f.size then 1 else 0
  }

  function CoversAll(fs: seq<Frag>, o: Object): nat {
    if fs == [] then 0 else CoversAll(fs[..|fs| - 1], o) + Covers(fs[|fs| - 1], o)
  }

  lemma {:induction false} CoversConcat(a: seq<Frag>, b: seq<Frag>, o: Object)
    ensures CoversAll(a + b, o) == CoversAll(a, o) + CoversAll(b, o)
  {
    if b == [] {
      assert a + b == a;
    } else {
      assert (a + b)[..|a + b| - 1] == a + b[..|b| - 1];
      CoversConcat(a, b[..|b| - 1], o);
    }
  }

  /** The rest of the current page, if it is still in use. */
  function Tail(p: Pool): Frag {
    if p.debrisMode || p.pages == 0 || p.used > p.page2Size then NO_FRAG
    else Frag(p.pages - 1, p.used, p.page2Size - p.used)
  }

  function PoolOwns(p: Pool, o: Object): nat {
    CoversAll(p.debris, o) + Covers(Tail(p), o)
  }

  function Allocated(p: Pool, o: Object): nat {
    if o.page < p.pages && o.off < p.page2Size then 1 else 0
  }

  /** What the pool drops because it is smaller than the debris limit. */
  function LostByRefill(p: Pool, minNum: nat): seq<Frag> {
    if !p.debrisMode && p.pages > 0 && p.used <= p.page2Size && p.page2Size - p.used < minNum && p.page2Size - p.used < p.debrisMin
    then [Frag(p.pages - 1, p.used, p.page2Size - p.used)] else []
  }

  lemma {:induction false} TotalConcat(a: seq<Frag>, b: seq<Frag>)
    ensures TotalSize(a + b) == TotalSize(a) + TotalSize(b)
  {
    if b == [] {
      assert a + b == a;
    } else {
      assert (a + b)[..|a + b| - 1] == a + b[..|b| - 1];
      TotalConcat(a, b[..|b| - 1]);
    }
  }

  /** Taking from the back moves fragments ... */
  lemma {:induction false} TakeDebrisMoves(fs: seq<Frag>, need: int, o: Object)
    ensures var t := TakeDebris(fs, need);
      && t.rest <= fs && (forall f :: f in t.frames ==> f in fs)
      && CoversAll(t.rest, o) + CoversAll(t.frames, o) == CoversAll(fs, o)
  {
    if fs != [] && need > 0 {
      var init, last := fs[..|fs| - 1], fs[|fs| - 1];
      TakeDebrisMoves(init, need - last.size, o);
      CoversConcat([last], TakeDebris(init, need - last.size).frames, o);
      assert CoversAll([last], o) == Covers(last, o);
    }
  }

  /** ... yields enough objects when there are enough ... */
  lemma {:induction false} TakeDebrisEnough(fs: seq<Frag>, need: int)
    ensures var t := TakeDebris(fs, need);
      && TotalSize(t.frames) >= (if need <= TotalSize(fs) then need else TotalSize(fs))
      && (need > 0 && fs != [] ==> t.frames != [])
  {
    if fs != [] && need > 0 {
      var init, last := fs[..|fs| - 1], fs[|fs| - 1];
      TakeDebrisEnough(init, need - last.size);
      TotalConcat([last], TakeDebris(init, need - last.size).frames);
      assert TotalSize([last]) == last.size;
    }
  }

  /** ... and takes no more fragments than the demand justifies. */
  lemma {:induction false} TakeDebrisFew(fs: seq<Frag>, need: int, min: nat)
    requires forall i :: 0 <= i < |fs| ==> fs[i].size >= min
    ensures var t := TakeDebris(fs, need); t.frames != [] ==> need > (|t.frames| - 1) * min
  {
    if fs != [] && need > 0 {
      TakeDebrisFew(fs[..|fs| - 1], need - fs[|fs| - 1].size, min);
      var n := |TakeDebris(fs[..|fs| - 1], need - fs[|fs| - 1].size).frames|;
      assert n > 0 ==> n * min == (n - 1) * min + min;
    }
  }

  lemma {:induction false} TotalAtLeast(fs: seq<Frag>, min: nat)
    requires forall i :: 0 <= i < |fs| ==> fs[i].size >= min
    ensures TotalSize(fs) >= |fs| * min
  {
    if fs != [] { TotalAtLeast(fs[..|fs| - 1], min); }
  }

  /** A refill needs at most `FrameCount` fragments of debris, and may need as many. */
  lemma FrameCountCovers(minNum: nat, debrisMin: nat)
    requires debrisMin > 0
    ensures FrameCount(minNum, debrisMin) * debrisMin >= minNum
    ensures minNum > 0 ==> FrameCount(minNum, debrisMin) > 0
    ensures minNum > 0 ==> (FrameCount(minNum, debrisMin) - 1) * debrisMin < minNum
  {
    var q, r := minNum / debrisMin, minNum % debrisMin;
    assert minNum == q * debrisMin + r;
    assert (q - 1) * debrisMin == q * debrisMin - debrisMin;
    assert (q + 1) * debrisMin == q * debrisMin + debrisMin;
  }

  lemma FewEnough(n: nat, minNum: nat, debrisMin: nat)
    requires debrisMin > 0 && (n - 1) * debrisMin < minNum
    ensures n <= FrameCount(minNum, debrisMin)
  {
    FrameCountCovers(minNum, debrisMin);
    if n > FrameCount(minNum, debrisMin) {
      MulMono(FrameCount(minNum, debrisMin), n - 1, debrisMin);
      assert false;
    }
  }

  // ----- what a refill promises ----------------------------------------------------------

  /** Enough objects, in fragments that fit the frame table, filled ones first. */
  ghost predicate GoodFrames(p: Pool, frames: seq<Frag>, minNum: nat) {
    && p.debrisMin > 0 && 0 < |frames| <= FrameCount(minNum, p.debrisMin) && TotalSize(frames) >= minNum
    && forall i :: 0 <= i < |frames| ==> frames[i].size > 0 && FragOk(p, frames[i])
  }

  /** Every object the refill does not hand over stays in the pool, or is lost in a fragment
      smaller than the debris limit, or belongs to a page that is new. */
  ghost predicate Moves(p: Pool, r: Refill, lost: seq<Frag>, o: Object) {
    PoolOwns(p, o) + (Allocated(r.pool, o) - Allocated(p, o))
    == PoolOwns(r.pool, o) + CoversAll(r.frames, o) + CoversAll(lost, o)
  }

  ghost predicate RefillOk(p: Pool, minNum: nat, r: Refill, o: Object) {
    && PoolOk(r.pool) && p.pages <= r.pool.pages <= p.pages + 1
    && r.pool.page2Size == p.page2Size && r.pool.debrisMin == p.debrisMin && r.pool.page1Size == p.page1Size
    && GoodFrames(r.pool, r.frames, minNum) && Moves(p, r, LostByRefill(p, minNum), o)
  }

  lemma LeavePageCorrect(p: Pool, minNum: nat, o: Object)
    requires PoolOk(p) && !p.debrisMode && !PageSuffices(p, minNum)
    ensures PoolOk(LeavePage(p))
    ensures PoolOwns(p, o) == PoolOwns(LeavePage(p), o) + CoversAll(LostByRefill(p, minNum), o)
  {
    var f := Frag(p.pages - 1, p.used, p.page2Size - p.used);
    assert CoversAll([f], o) == Covers(f, o);
    CoversConcat(p.debris, [f], o);
  }

  /** Debris is used only when it holds enough objects. */
  lemma DebrisSuffices(q: Pool, minNum: nat)
    requires PoolOk(q) && UsesDebris(q, minNum, FrameCount(minNum, q.debrisMin))
    ensures TotalSize(q.debris) >= minNum
  {
    TotalAtLeast(q.debris, q.debrisMin);
    FrameCountCovers(minNum, q.debrisMin);
    var c := FrameCount(minNum, q.debrisMin);
    if c <= |q.debris| {
      MulMono(c, |q.debris|, q.debrisMin);
    }
  }

  lemma DebrisRefill(q: Pool, minNum: nat, o: Object)
    requires PoolOk(q) && q.debrisMode && 0 < minNum && TotalSize(q.debris) >= minNum
    ensures var t := TakeDebris(q.debris, minNum);
      var r := Refill(q.(debris := t.rest), t.frames);
      && PoolOk(r.pool) && GoodFrames(r.pool, r.frames, minNum) && Moves(q, r, [], o)
  {
    TakeDebrisMoves(q.debris, minNum, o);
    TakeDebrisEnough(q.debris, minNum);
    TakeDebrisFew(q.debris, minNum, q.debrisMin);
    var t := TakeDebris(q.debris, minNum);
    var p := q.(debris := t.rest);
    FewEnough(|t.frames|, minNum, q.debrisMin);
    forall i | 0 <= i < |p.debris| ensures FragOk(p, p.debris[i]) && p.debris[i].size >= p.debrisMin {
      assert p.debris[i] == q.debris[i] && FragOk(q, q.debris[i]);
    }
    forall i | 0 <= i < |t.frames| ensures t.frames[i].size > 0 && FragOk(p, t.frames[i]) {
      assert t.frames[i] in q.debris;
    }
  }

  lemma NewPageRefill(q: Pool, minNum: nat, o: Object)
    requires PoolOk(q) && q.debrisMode && 0 < minNum <= q.page2Size && NewPage(q).Some?
    ensures var p := NewPage(q).value.(debrisMode := false);
      && PoolOk(p) && PageSuffices(p, minNum)
      && PoolOwns(q, o) + (Allocated(p, o) - Allocated(q, o)) == PoolOwns(p, o)
  {
    var p := NewPage(q).value.(debrisMode := false);
    forall i | 0 <= i < |p.debris| ensures FragOk(p, p.debris[i]) && p.debris[i].size >= p.debrisMin {
      assert FragOk(q, q.debris[i]);
    }
  }

  lemma PageRefill(p: Pool, minNum: nat, o: Object)
    requires PoolOk(p) && PageSuffices(p, minNum) && 0 < minNum
    ensures var r := Refill(p.(used := p.used + minNum), [Frag(p.pages - 1, p.used, minNum)]);
      && PoolOk(r.pool) && GoodFrames(r.pool, r.frames, minNum) && Moves(p, r, [], o)
  {
    var f := Frag(p.pages - 1, p.used, minNum);
    var r := Refill(p.(used := p.used + minNum), [f]);
    assert CoversAll([f], o) == Covers(f, o);
    assert TotalSize([f]) == f.size;
    FrameCountCovers(minNum, p.debrisMin);
    forall i | 0 <= i < |r.pool.debris| ensures FragOk(r.pool, r.pool.debris[i]) && r.pool.debris[i].size >= p.debrisMin {
      assert FragOk(p, p.debris[i]);
    }
  }

  /** Main result about refills. */
  lemma RefillCorrect(p: Pool, minNum: nat, o: Object)
    requires PoolOk(p) && 0 < minNum <= p.page2Size
    ensures var r := InitSubCacheFrame(p, minNum, FrameCount(minNum, p.debrisMin));
      r.Some? ==> RefillOk(p, minNum, r.value, o)
  {
    if PageSuffices(p, minNum) {
      PageRefill(p, minNum, o);
    } else {
      if !p.debrisMode {
        LeavePageCorrect(p, minNum, o);
        LeaveThenRefill(p, minNum, FrameCount(minNum, p.debrisMin));
      }
      DebrisModeRefill(if p.debrisMode then p else LeavePage(p), minNum, o);
    }
  }

  lemma LeaveThenRefill(p: Pool, minNum: nat, maxFrames: nat)
    requires PoolOk(p) && PoolOk(LeavePage(p)) && 0 < minNum <= p.page2Size && !p.debrisMode && !PageSuffices(p, minNum)
    ensures InitSubCacheFrame(p, minNum, maxFrames) == InitSubCacheFrame(LeavePage(p), minNum, maxFrames)
  {
  }

  lemma DebrisModeRefill(q: Pool, minNum: nat, o: Object)
    requires PoolOk(q) && q.debrisMode && 0 < minNum <= q.page2Size
    ensures LostByRefill(q, minNum) == []
    ensures var r := InitSubCacheFrame(q, minNum, FrameCount(minNum, q.debrisMin));
      r.Some? ==> RefillOk(q, minNum, r.value, o)
  {
    if UsesDebris(q, minNum, FrameCount(minNum, q.debrisMin)) {
      DebrisSuffices(q, minNum);
      DebrisRefill(q, minNum, o);
    } else if NewPage(q).Some? {
      NewPageRefill(q, minNum, o);
      PageRefill(NewPage(q).value.(debrisMode := false), minNum, o);
    }
  }

  // ----- when a page is opened --------------------------------------------------------

  /** The objects a refill can have without a new page once the current one is too short: all debris,
      the rest of the current page included unless it is too small to keep. */
  function Leftovers(p: Pool): int {
    var rest := p.page2Size - p.used;
    TotalSize(p.debris) + if !p.debrisMode && rest >= p.debrisMin then rest else 0
  }

  lemma LeftoversAreDebris(p: Pool)
    requires PoolOk(p) && !p.debrisMode
    ensures TotalSize(LeavePage(p).debris) == Leftovers(p)
  {
    var f := Frag(p.pages - 1, p.used, p.page2Size - p.used);
    TotalConcat(p.debris, [f]);
    assert TotalSize([f]) == f.size;
  }

  lemma DebrisModeOpens(q: Pool, minNum: nat)
    requires PoolOk(q) && q.debrisMode && 0 < minNum <= q.page2Size
    ensures var r := InitSubCacheFrame(q, minNum, FrameCount(minNum, q.debrisMin));
      if TotalSize(q.debris) >= minNum then r.Some? && r.value.pool.pages == q.pages && r.value.pool.debrisMode
      else if q.pages == q.page1Size then r.None?
      else r.Some? && r.value.pool.pages == q.pages + 1 && r.value.pool.used == minNum
           && r.value.pool.debris == q.debris && r.value.frames == [Frag(q.pages, 0, minNum)]
  {
    if TotalSize(q.debris) < minNum && UsesDebris(q, minNum, FrameCount(minNum, q.debrisMin)) {
      DebrisSuffices(q, minNum);
    }
  }

  lemma LeavePageOpens(p: Pool, q: Pool, minNum: nat)
    requires PoolOk(p) && !p.debrisMode && p.page2Size - p.used < minNum <= p.page2Size && 0 < minNum && q == LeavePage(p)
    ensures PoolOk(q) && q.debrisMode && q.pages == p.pages && q.page1Size == p.page1Size && q.page2Size == p.page2Size
    ensures q.debrisMin == p.debrisMin && TotalSize(q.debris) == Leftovers(p)
    ensures var maxFrames := FrameCount(minNum, p.debrisMin);
      InitSubCacheFrame(p, minNum, maxFrames) == InitSubCacheFrame(q, minNum, maxFrames)
    ensures var r := InitSubCacheFrame(q, minNum, FrameCount(minNum, p.debrisMin));
      if Leftovers(p) >= minNum then r.Some? && r.value.pool.pages == p.pages && r.value.pool.debrisMode
      else if p.pages == p.page1Size then r.None?
      else r.Some? && r.value.pool.pages == p.pages + 1 && r.value.frames == [Frag(p.pages, 0, minNum)]
  {
    LeavePageCorrect(p, minNum, Object(0, 0));
    LeaveThenRefill(p, minNum, FrameCount(minNum, p.debrisMin));
    LeftoversAreDebris(p);
    DebrisModeOpens(q, minNum);
  }

  /** A refill comes from the current page exactly if that is long enough.  Otherwise a new page is
      opened, or the process ends if all pages are in use, exactly if what is left over is less than the
      demand. */
  lemma OpensPageExactlyIf(p: Pool, minNum: nat)
    requires PoolOk(p) && 0 < minNum <= p.page2Size
    ensures var r := InitSubCacheFrame(p, minNum, FrameCount(minNum, p.debrisMin));
      if !p.debrisMode && p.page2Size - p.used >= minNum then
        r == Some(Refill(p.(used := p.used + minNum), [Frag(p.pages - 1, p.used, minNum)]))
      else if Leftovers(p) >= minNum then r.Some? && r.value.pool.pages == p.pages && r.value.pool.debrisMode
      else if p.pages == p.page1Size then r.None?
      else r.Some? && r.value.pool.pages == p.pages + 1 && r.value.frames == [Frag(p.pages, 0, minNum)]
  {
    if p.debrisMode {
      DebrisModeOpens(p, minNum);
    } else if p.page2Size - p.used < minNum {
      LeavePageOpens(p, LeavePage(p), minNum);
    }
  }

  // ----- one thread's operations ----------------------------------------------------------

  datatype Got = Got(pool: Pool, tls: Tls, obj: Object)

  /** `tls_memory_cache_t`: an empty frame table, filled at once. */
  function CreateTls(p: Pool, minNum: nat): Option<Got>
    requires PoolOk(p) && 0 < minNum <= p.page2Size
  {
    RefillCorrect(p, minNum, Object(0, 0));
    match InitSubCacheFrame(p, minNum, FrameCount(minNum, p.debrisMin))
    case None => None
    case Some(r) => Some(Got(r.pool, Tls(Pad(r.frames, FrameCount(minNum, p.debrisMin)), 0, -1), Object(0, 0)))
  }

  function ObjectAt(f: Frag, n: nat): Object {
    Object(f.page, f.off + n)
  }

  /** `get_next_object` */
  function GetNext(p: Pool, t: Tls, minNum: nat): Option<Got>
    requires PoolOk(p) && 0 < minNum <= p.page2Size && TlsOk(p, t, minNum)
  {
    var n := t.num + 1;
    if n < t.frames[t.frame].size then
      Some(Got(p, t.(num := n), ObjectAt(t.frames[t.frame], n)))
    else if t.frame + 1 < |t.frames| && t.frames[t.frame + 1].size != 0 then
      Some(Got(p, t.(frame := t.frame + 1, num := 0), ObjectAt(t.frames[t.frame + 1], 0)))
    else
      match CreateTls(p, minNum)
      case None => None
      case Some(g) => Some(Got(g.pool, Tls(g.tls.frames, 0, 0), ObjectAt(g.tls.frames[0], 0)))
  }

  function RestOf(f: Frag, num: int): Frag
    requires num >= -1
  {
    if num + 1 <= f.size then Frag(f.page, f.off + num + 1, f.size - num - 1) else NO_FRAG
  }

  /** What a thread has got but not handed out. */
  function Unused(t: Tls): seq<Frag>
    requires t.frame < |t.frames| && t.num >= -1
  {
    [RestOf(t.frames[t.frame], t.num)] + t.frames[t.frame + 1..]
  }

  function AddAll(p: Pool, fs: seq<Frag>): Pool {
    if fs == [] then p else AddDebris(AddAll(p, fs[..|fs| - 1]), fs[|fs| - 1])
  }

  function TooSmall(fs: seq<Frag>, min: nat): seq<Frag> {
    if fs == [] then []
    else TooSmall(fs[..|fs| - 1], min) + (if fs[|fs| - 1].size < min then [fs[|fs| - 1]] else [])
  }

  function Emptied(t: Tls): Tls {
    t.(frames := seq(|t.frames|, _ => NO_FRAG))
  }

  ghost predicate TlsOk(p: Pool, t: Tls, minNum: nat) {
    && p.debrisMin > 0 && |t.frames| == FrameCount(minNum, p.debrisMin) && t.frame < |t.frames| && t.num >= -1
    && (forall i :: 0 <= i < |t.frames| && t.frames[i].size > 0 ==> FragOk(p, t.frames[i]))
    && (forall i, j :: 0 <= i < j < |t.frames| && t.frames[i].size == 0 ==> t.frames[j].size == 0)
  }

  lemma {:induction false} CoversNothing(fs: seq<Frag>, o: Object)
    requires forall i :: 0 <= i < |fs| ==> fs[i].size == 0
    ensures CoversAll(fs, o) == 0
  {
    if fs != [] { CoversNothing(fs[..|fs| - 1], o); }
  }

  lemma CoversPad(fs: seq<Frag>, n: nat, o: Object)
    requires |fs| <= n
    ensures CoversAll(Pad(fs, n), o) == CoversAll(fs, o)
  {
    CoversConcat(fs, seq(n - |fs|, _ => NO_FRAG), o);
    CoversNothing(seq(n - |fs|, _ => NO_FRAG), o);
  }

  lemma CoversHead(fs: seq<Frag>, o: Object)
    requires fs != []
    ensures CoversAll(fs, o) == Covers(fs[0], o) + CoversAll(fs[1..], o)
  {
    CoversConcat([fs[0]], fs[1..], o);
    assert [fs[0]] + fs[1..] == fs;
    assert CoversAll([fs[0]], o) == Covers(fs[0], o);
  }

  /** Objects the pool drops during an operation of a thread. */
  function Dropped(p: Pool, t: Tls, minNum: nat): seq<Frag>
    requires t.frame < |t.frames| && t.num >= -1
  {
    if t.num + 1 < t.frames[t.frame].size || (t.frame + 1 < |t.frames| && t.frames[t.frame + 1].size != 0)
    then [] else LostByRefill(p, minNum)
  }

  /** `q` is `p` at a later time. */
  ghost predicate Later(p: Pool, q: Pool) {
    q.page1Size == p.page1Size && q.page2Size == p.page2Size && q.debrisMin == p.debrisMin && p.pages <= q.pages
  }

  lemma CreateTlsShape(p: Pool, minNum: nat)
    requires PoolOk(p) && 0 < minNum <= p.page2Size
    ensures var g := CreateTls(p, minNum);
      g.Some? ==> PoolOk(g.value.pool) && Later(p, g.value.pool) && TlsOk(g.value.pool, g.value.tls, minNum)
                  && g.value.tls.frames[0].size > 0
  {
    RefillCorrect(p, minNum, Object(0, 0));
  }

  lemma CreateTlsCounts(p: Pool, minNum: nat, o: Object)
    requires PoolOk(p) && 0 < minNum <= p.page2Size
    ensures var g := CreateTls(p, minNum);
      g.Some? ==>
        PoolOwns(p, o) + (Allocated(g.value.pool, o) - Allocated(p, o))
        == PoolOwns(g.value.pool, o) + CoversAll(g.value.tls.frames, o) + CoversAll(LostByRefill(p, minNum), o)
  {
    RefillCorrect(p, minNum, o);
    var r := InitSubCacheFrame(p, minNum, FrameCount(minNum, p.debrisMin));
    if r.Some? {
      CoversPad(r.value.frames, FrameCount(minNum, p.debrisMin), o);
    }
  }

  lemma GetNextShape(p: Pool, t: Tls, minNum: nat)
    requires PoolOk(p) && 0 < minNum <= p.page2Size && TlsOk(p, t, minNum)
    ensures var g := GetNext(p, t, minNum);
      g.Some? ==> PoolOk(g.value.pool) && Later(p, g.value.pool) && TlsOk(g.value.pool, g.value.tls, minNum)
  {
    CreateTlsShape(p, minNum);
  }

  ghost predicate GetCounts(p: Pool, t: Tls, minNum: nat, g: Got, o: Object)
    requires t.frame < |t.frames| && t.num >= -1 && g.tls.frame < |g.tls.frames| && g.tls.num >= -1
  {
    PoolOwns(p, o) + CoversAll(Unused(t), o) + (Allocated(g.pool, o) - Allocated(p, o))
    == PoolOwns(g.pool, o) + CoversAll(Unused(g.tls), o) + CoversAll(Dropped(p, t, minNum), o)
       + (if g.obj == o then 1 else 0)
  }

  lemma UnusedCounts(t: Tls, o: Object)
    requires t.frame < |t.frames| && t.num >= -1
    ensures CoversAll(Unused(t), o) == Covers(RestOf(t.frames[t.frame], t.num), o) + CoversAll(t.frames[t.frame + 1..], o)
  {
    CoversHead(Unused(t), o);
    assert Unused(t)[1..] == t.frames[t.frame + 1..];
  }

  /** Handing out one object moves just that object from the unused part to the user. */
  lemma GetNextCounts(p: Pool, t: Tls, minNum: nat, o: Object)
    requires PoolOk(p) && 0 < minNum <= p.page2Size && TlsOk(p, t, minNum)
    ensures var g := GetNext(p, t, minNum);
      g.Some? ==> g.value.tls.frame < |g.value.tls.frames| && g.value.tls.num >= -1 && GetCounts(p, t, minNum, g.value, o)
  {
    var n := t.num + 1;
    if n < t.frames[t.frame].size {
      assert GetNext(p, t, minNum) == Some(Got(p, t.(num := n), ObjectAt(t.frames[t.frame], n)));
      GetSameFrame(p, t, minNum, o);
    } else if t.frame + 1 < |t.frames| && t.frames[t.frame + 1].size != 0 {
      assert GetNext(p, t, minNum) == Some(Got(p, t.(frame := t.frame + 1, num := 0), ObjectAt(t.frames[t.frame + 1], 0)));
      GetNextFrame(p, t, minNum, o);
    } else if CreateTls(p, minNum).Some? {
      var g := CreateTls(p, minNum).value;
      CreateTlsShape(p, minNum);
      assert GetNext(p, t, minNum) == Some(Got(g.pool, Tls(g.tls.frames, 0, 0), ObjectAt(g.tls.frames[0], 0)));
      CreateTlsCounts(p, minNum, o);
      assert forall i :: t.frame < i < |t.frames| ==> t.frames[i].size == 0;
      GetRefilled(p, t, minNum, g, o);
    }
  }

  lemma GetSameFrame(p: Pool, t: Tls, minNum: nat, o: Object)
    requires t.frame < |t.frames| && t.num >= -1 && t.num + 1 < t.frames[t.frame].size
    ensures GetCounts(p, t, minNum, Got(p, t.(num := t.num + 1), ObjectAt(t.frames[t.frame], t.num + 1)), o)
  {
    UnusedCounts(t, o);
    UnusedCounts(t.(num := t.num + 1), o);
  }

  lemma GetNextFrame(p: Pool, t: Tls, minNum: nat, o: Object)
    requires t.frame + 1 < |t.frames| && t.num + 1 >= t.frames[t.frame].size && t.frames[t.frame + 1].size != 0
    ensures GetCounts(p, t, minNum, Got(p, t.(frame := t.frame + 1, num := 0), ObjectAt(t.frames[t.frame + 1], 0)), o)
  {
    UnusedCounts(t, o);
    UnusedCounts(t.(frame := t.frame + 1, num := 0), o);
    CoversHead(t.frames[t.frame + 1..], o);
    assert t.frames[t.frame + 1..][1..] == t.frames[t.frame + 2..];
  }

  lemma GetRefilled(p: Pool, t: Tls, minNum: nat, g: Got, o: Object)
    requires t.frame < |t.frames| && t.num >= -1 && t.num + 1 >= t.frames[t.frame].size
    requires forall i :: t.frame < i < |t.frames| ==> t.frames[i].size == 0
    requires |g.tls.frames| > 0 && g.tls.frames[0].size > 0
    requires PoolOwns(p, o) + (Allocated(g.pool, o) - Allocated(p, o))
          == PoolOwns(g.pool, o) + CoversAll(g.tls.frames, o) + CoversAll(LostByRefill(p, minNum), o)
    ensures GetCounts(p, t, minNum, Got(g.pool, Tls(g.tls.frames, 0, 0), ObjectAt(g.tls.frames[0], 0)), o)
  {
    var fs := g.tls.frames;
    UnusedCounts(t, o);
    UnusedCounts(Tls(fs, 0, 0), o);
    CoversNothing(t.frames[t.frame + 1..], o);
    CoversHead(fs, o);
    var x := ObjectAt(fs[0], 0);
    assert Covers(fs[0], o) == Covers(RestOf(fs[0], 0), o) + (if x == o then 1 else 0);
    assert Dropped(p, t, minNum) == LostByRefill(p, minNum);
  }

  /** No refill is possible: the page is too short, what is left over is not enough, and all pages are in use. */
  predicate Exhausted(p: Pool, minNum: nat) {
    (p.debrisMode || p.page2Size - p.used < minNum) && Leftovers(p) < minNum && p.pages == p.page1Size
  }

  lemma CreateTlsFailsExactlyIf(p: Pool, minNum: nat)
    requires PoolOk(p) && 0 < minNum <= p.page2Size
    ensures CreateTls(p, minNum).None? <==> Exhausted(p, minNum)
  {
    OpensPageExactlyIf(p, minNum);
  }

  /** A thread is handed the first of its unused objects and leaves the pool alone; only one that has
      none left asks the pool, and only then can the process end, which it does exactly if the pool
      is exhausted. */
  lemma HandsOutInOrder(p: Pool, t: Tls, minNum: nat)
    requires PoolOk(p) && 0 < minNum <= p.page2Size && TlsOk(p, t, minNum)
    ensures var fs, g := Unused(t), GetNext(p, t, minNum);
      if fs[0].size > 0 then g.Some? && g.value.pool == p && g.value.obj == Object(fs[0].page, fs[0].off)
      else if |fs| > 1 && fs[1].size > 0 then g.Some? && g.value.pool == p && g.value.obj == Object(fs[1].page, fs[1].off)
      else (forall i :: 0 <= i < |fs| ==> fs[i].size == 0) && (g.None? <==> Exhausted(p, minNum))
  {
    CreateTlsFailsExactlyIf(p, minNum);
    var fs := Unused(t);
    assert fs[0] == RestOf(t.frames[t.frame], t.num) && fs[1..] == t.frames[t.frame + 1..];
    assert forall i :: 1 <= i < |fs| ==> fs[i] == t.frames[t.frame + i];
  }

  lemma AddDebrisCounts(p: Pool, f: Frag, o: Object)
    requires PoolOk(p) && (f.size > 0 ==> FragOk(p, f))
    ensures var q := AddDebris(p, f);
      && PoolOk(q) && q == p.(debris := q.debris)
      && PoolOwns(p, o) + Covers(f, o) == PoolOwns(q, o) + (if f.size < p.debrisMin then Covers(f, o) else 0)
  {
    CoversConcat(p.debris, [f], o);
    assert CoversAll([f], o) == Covers(f, o);
    var q := AddDebris(p, f);
    forall i | 0 <= i < |q.debris| ensures FragOk(q, q.debris[i]) && q.debris[i].size >= q.debrisMin {
      if i < |p.debris| { assert FragOk(p, p.debris[i]); }
    }
  }

  lemma {:induction false} TooSmallCounts(fs: seq<Frag>, min: nat, o: Object)
    requires fs != []
    ensures var init, f := fs[..|fs| - 1], fs[|fs| - 1];
      CoversAll(TooSmall(fs, min), o) == CoversAll(TooSmall(init, min), o) + (if f.size < min then Covers(f, o) else 0)
  {
    var init, f := fs[..|fs| - 1], fs[|fs| - 1];
    CoversConcat(TooSmall(init, min), [f], o);
    assert CoversAll([f], o) == Covers(f, o);
    assert TooSmall(init, min) + [] == TooSmall(init, min);
  }

  lemma {:induction false} TooSmallSizes(fs: seq<Frag>, min: nat)
    ensures forall i :: 0 <= i < |TooSmall(fs, min)| ==> TooSmall(fs, min)[i].size < min
  {
    if fs != [] { TooSmallSizes(fs[..|fs| - 1], min); }
  }

  lemma {:induction false} AddAllCounts(p: Pool, fs: seq<Frag>, o: Object)
    requires PoolOk(p) && forall i :: 0 <= i < |fs| && fs[i].size > 0 ==> FragOk(p, fs[i])
    ensures var q := AddAll(p, fs);
      && PoolOk(q) && q == p.(debris := q.debris)
      && PoolOwns(p, o) + CoversAll(fs, o) == PoolOwns(q, o) + CoversAll(TooSmall(fs, p.debrisMin), o)
  {
    if fs != [] {
      var init, f := fs[..|fs| - 1], fs[|fs| - 1];
      AddAllCounts(p, init, o);
      TooSmallCounts(fs, p.debrisMin, o);
      var q := AddAll(p, init);
      assert f.size > 0 ==> FragOk(q, f) by {
        assert f.size > 0 ==> FragOk(p, fs[|fs| - 1]);
      }
      AddDebrisCounts(q, f, o);
    }
  }

  // ----- runs of many threads -------------------------------------------------------------

  /** `handed` are the objects handed out so far, `lost` the fragments nobody owns any more. */
  datatype Alloc = Alloc(pool: Pool, threads: seq<Tls>, handed: seq<Object>, lost: seq<Frag>)

  datatype AllocEvent = NewThread | Get(t: nat) | Release(t: nat)

  ghost predicate AllocOk(a: Alloc, minNum: nat) {
    && PoolOk(a.pool) && 0 < minNum <= a.pool.page2Size
    && (forall t :: 0 <= t < |a.threads| ==> TlsOk(a.pool, a.threads[t], minNum))
    && (forall i :: 0 <= i < |a.lost| ==> a.lost[i].size < a.pool.debrisMin)
  }

  /** Threads interleave freely: a refill holds the lock, all else is private to a thread. */
  function AllocStep(a: Alloc, minNum: nat, e: AllocEvent): Option<Alloc>
    requires AllocOk(a, minNum) && (!e.NewThread? ==> e.t < |a.threads|)
  {
    match e
    case NewThread =>
      (match CreateTls(a.pool, minNum)
       case None => None
       case Some(g) => Some(Alloc(g.pool, a.threads + [g.tls], a.handed, a.lost + LostByRefill(a.pool, minNum))))
    case Get(t) =>
      (match GetNext(a.pool, a.threads[t], minNum)
       case None => None
       case Some(g) => Some(Alloc(g.pool, a.threads[t := g.tls], a.handed + [g.obj],
                                  a.lost + Dropped(a.pool, a.threads[t], minNum))))
    case Release(t) =>
      Some(Alloc(AddAll(a.pool, Unused(a.threads[t])), a.threads[t := Emptied(a.threads[t])], a.handed,
                 a.lost + TooSmall(Unused(a.threads[t]), a.pool.debrisMin)))
  }

  ghost function ThreadsOwn(ts: seq<Tls>, o: Object): nat
    requires forall i :: 0 <= i < |ts| ==> ts[i].frame < |ts[i].frames| && ts[i].num >= -1
  {
    if ts == [] then 0 else ThreadsOwn(ts[..|ts| - 1], o) + CoversAll(Unused(ts[|ts| - 1]), o)
  }

  /** In how many places an object is: handed out, unused in a thread, debris, tail, lost. */
  ghost function Owners(a: Alloc, minNum: nat, o: Object): nat
    requires AllocOk(a, minNum)
  {
    multiset(a.handed)[o] + ThreadsOwn(a.threads, o) + PoolOwns(a.pool, o) + CoversAll(a.lost, o)
  }

  /** Every object of an allocated page is in exactly one place, any other in none. */
  ghost predicate OwnedOnce(a: Alloc, minNum: nat) {
    AllocOk(a, minNum) && forall o :: Owners(a, minNum, o) == Allocated(a.pool, o)
  }

  lemma {:induction false} ThreadsOwnUpdate(ts: seq<Tls>, t: nat, x: Tls, o: Object)
    requires forall i :: 0 <= i < |ts| ==> ts[i].frame < |ts[i].frames| && ts[i].num >= -1
    requires t < |ts| && x.frame < |x.frames| && x.num >= -1
    ensures ThreadsOwn(ts[t := x], o) + CoversAll(Unused(ts[t]), o) == ThreadsOwn(ts, o) + CoversAll(Unused(x), o)
  {
    var init := ts[..|ts| - 1];
    if t == |ts| - 1 {
      assert ts[t := x][..|ts| - 1] == init;
    } else {
      assert ts[t := x][..|ts| - 1] == init[t := x];
      ThreadsOwnUpdate(init, t, x, o);
    }
  }

  lemma TlsOkGrows(p: Pool, q: Pool, t: Tls, minNum: nat)
    requires TlsOk(p, t, minNum) && Later(p, q)
    ensures TlsOk(q, t, minNum)
  {
    forall i | 0 <= i < |t.frames| && t.frames[i].size > 0 ensures FragOk(q, t.frames[i]) {
      assert FragOk(p, t.frames[i]);
    }
  }

  lemma UnusedOk(p: Pool, t: Tls, minNum: nat)
    requires TlsOk(p, t, minNum)
    ensures forall i :: 0 <= i < |Unused(t)| && Unused(t)[i].size > 0 ==> FragOk(p, Unused(t)[i])
  {
    var fs := Unused(t);
    forall i | 0 <= i < |fs| && fs[i].size > 0 ensures FragOk(p, fs[i]) {
      if i == 0 {
        assert FragOk(p, t.frames[t.frame]);
      } else {
        assert fs[i] == t.frames[t.frame + i];
      }
    }
  }

  lemma LostSmall(p: Pool, minNum: nat)
    ensures forall i :: 0 <= i < |LostByRefill(p, minNum)| ==> LostByRefill(p, minNum)[i].size < p.debrisMin
  {
  }

  lemma ThreadsOkGrow(p: Pool, q: Pool, ts: seq<Tls>, ts': seq<Tls>, t: nat, minNum: nat)
    requires Later(p, q) && |ts'| == |ts| && t < |ts| && ts' == ts[t := ts'[t]] && TlsOk(q, ts'[t], minNum)
    requires forall u :: 0 <= u < |ts| ==> TlsOk(p, ts[u], minNum)
    ensures forall u :: 0 <= u < |ts'| ==> TlsOk(q, ts'[u], minNum)
  {
    forall u | 0 <= u < |ts'| ensures TlsOk(q, ts'[u], minNum) {
      if u != t { TlsOkGrows(p, q, ts[u], minNum); }
    }
  }

  /** After a step the state is well formed. */
  lemma StepShape(a: Alloc, minNum: nat, e: AllocEvent)
    requires AllocOk(a, minNum) && (!e.NewThread? ==> e.t < |a.threads|)
    ensures var r := AllocStep(a, minNum, e); r.Some? ==> AllocOk(r.value, minNum) && Later(a.pool, r.value.pool)
  {
    LostSmall(a.pool, minNum);
    var r := AllocStep(a, minNum, e);
    match e
    case NewThread =>
      CreateTlsShape(a.pool, minNum);
      if r.Some? {
        forall u | 0 <= u < |a.threads| ensures TlsOk(r.value.pool, a.threads[u], minNum) {
          TlsOkGrows(a.pool, r.value.pool, a.threads[u], minNum);
        }
      }
    case Get(t) =>
      GetNextShape(a.pool, a.threads[t], minNum);
      if r.Some? {
        ThreadsOkGrow(a.pool, r.value.pool, a.threads, r.value.threads, t, minNum);
      }
    case Release(t) => ReleaseShape(a, minNum, t);
  }

  lemma ReleaseShape(a: Alloc, minNum: nat, t: nat)
    requires AllocOk(a, minNum) && t < |a.threads|
    ensures var r := AllocStep(a, minNum, Release(t)).value; AllocOk(r, minNum) && Later(a.pool, r.pool)
  {
    var th := a.threads[t];
    UnusedOk(a.pool, th, minNum);
    AddAllCounts(a.pool, Unused(th), Object(0, 0));
    TooSmallSizes(Unused(th), a.pool.debrisMin);
    ThreadsOkGrow(a.pool, AddAll(a.pool, Unused(th)), a.threads, a.threads[t := Emptied(th)], t, minNum);
  }

  /** A step changes the number of owners of an object only by allocating its page. */
  ghost predicate Balanced(a: Alloc, b: Alloc, minNum: nat, o: Object)
    requires AllocOk(a, minNum) && AllocOk(b, minNum)
  {
    Owners(b, minNum, o) - Allocated(b.pool, o) == Owners(a, minNum, o) - Allocated(a.pool, o)
  }

  lemma ReleaseBalanced(a: Alloc, minNum: nat, t: nat, o: Object)
    requires AllocOk(a, minNum) && t < |a.threads| && AllocOk(AllocStep(a, minNum, Release(t)).value, minNum)
    ensures Balanced(a, AllocStep(a, minNum, Release(t)).value, minNum, o)
  {
    var th := a.threads[t];
    var fs := Unused(th);
    UnusedOk(a.pool, th, minNum);
    AddAllCounts(a.pool, fs, o);
    assert Allocated(AddAll(a.pool, fs), o) == Allocated(a.pool, o);
    ThreadsOwnUpdate(a.threads, t, Emptied(th), o);
    EmptiedOwnsNothing(th, o);
    CoversConcat(a.lost, TooSmall(fs, a.pool.debrisMin), o);
  }

  lemma EmptiedOwnsNothing(t: Tls, o: Object)
    requires t.frame < |t.frames| && t.num >= -1
    ensures CoversAll(Unused(Emptied(t)), o) == 0
  {
    CoversNothing(Unused(Emptied(t)), o);
  }

  lemma GetBalanced(a: Alloc, minNum: nat, t: nat, o: Object)
    requires AllocOk(a, minNum) && t < |a.threads| && AllocStep(a, minNum, Get(t)).Some?
    requires AllocOk(AllocStep(a, minNum, Get(t)).value, minNum)
    ensures Balanced(a, AllocStep(a, minNum, Get(t)).value, minNum, o)
  {
    GetNextCounts(a.pool, a.threads[t], minNum, o);
    var g := GetNext(a.pool, a.threads[t], minNum).value;
    ThreadsOwnUpdate(a.threads, t, g.tls, o);
    CoversConcat(a.lost, Dropped(a.pool, a.threads[t], minNum), o);
    assert multiset(a.handed + [g.obj])[o] == multiset(a.handed)[o] + (if g.obj == o then 1 else 0);
  }

  lemma NewThreadBalanced(a: Alloc, minNum: nat, o: Object)
    requires AllocOk(a, minNum) && AllocStep(a, minNum, NewThread).Some?
    requires AllocOk(AllocStep(a, minNum, NewThread).value, minNum)
    ensures Balanced(a, AllocStep(a, minNum, NewThread).value, minNum, o)
  {
    CreateTlsCounts(a.pool, minNum, o);
    var t := CreateTls(a.pool, minNum).value.tls;
    assert (a.threads + [t])[..|a.threads|] == a.threads;
    UnusedCounts(t, o);
    CoversHead(t.frames, o);
    CoversConcat(a.lost, LostByRefill(a.pool, minNum), o);
  }

  lemma StepKeepsOwnership(a: Alloc, minNum: nat, e: AllocEvent)
    requires OwnedOnce(a, minNum) && (!e.NewThread? ==> e.t < |a.threads|)
    ensures var r := AllocStep(a, minNum, e); r.Some? ==> OwnedOnce(r.value, minNum)
  {
    StepShape(a, minNum, e);
    var r := AllocStep(a, minNum, e);
    if r.Some? {
      forall o ensures Owners(r.value, minNum, o) == Allocated(r.value.pool, o) {
        match e
        case NewThread => NewThreadBalanced(a, minNum, o);
        case Get(t) => GetBalanced(a, minNum, t, o);
        case Release(t) => ReleaseBalanced(a, minNum, t, o);
      }
    }
  }

  /** The allocator after its construction, with one page. */
  function NewAlloc(page1Size: nat, page2Size: nat, debrisMin: nat): Alloc {
    Alloc(Pool(page1Size, page2Size, debrisMin, 1, 0, false, []), [], [], [])
  }

  ghost function AllocRun(a: Alloc, minNum: nat, es: seq<AllocEvent>): (r: Option<Alloc>)
    requires OwnedOnce(a, minNum)
    ensures r.Some? ==> OwnedOnce(r.value, minNum)
  {
    if es == [] then Some(a)
    else
      match AllocRun(a, minNum, es[..|es| - 1])
      case None => None
      case Some(b) =>
        var e := es[|es| - 1];
        if !e.NewThread? && e.t >= |b.threads| then None
        else StepKeepsOwnership(b, minNum, e); AllocStep(b, minNum, e)
  }

  /** Ownership over every interleaving: whatever threads come, allocate and go, every object
      of every allocated page is in exactly one place, and none is handed out twice. */
  lemma NoObjectTwice(page1Size: nat, page2Size: nat, debrisMin: nat, minNum: nat, es: seq<AllocEvent>)
    requires page1Size > 0 && debrisMin > 0 && 0 < minNum <= page2Size
    ensures OwnedOnce(NewAlloc(page1Size, page2Size, debrisMin), minNum)
    ensures var r := AllocRun(NewAlloc(page1Size, page2Size, debrisMin), minNum, es);
      r.Some? ==>
        && (forall o :: Owners(r.value, minNum, o) == Allocated(r.value.pool, o))
        && (forall i, j :: 0 <= i < j < |r.value.handed| ==> r.value.handed[i] != r.value.handed[j])
        && (forall i :: 0 <= i < |r.value.handed| ==> Allocated(r.value.pool, r.value.handed[i]) == 1)
  {
    var a := NewAlloc(page1Size, page2Size, debrisMin);
    assert forall o :: Owners(a, minNum, o) == Allocated(a.pool, o);
    var r := AllocRun(a, minNum, es);
    if r.Some? {
      var h := r.value.handed;
      forall i | 0 <= i < |h| ensures Allocated(r.value.pool, h[i]) == 1 && multiset(h)[h[i]] == 1 {
        assert h[i] in multiset(h);
        assert Owners(r.value, minNum, h[i]) == Allocated(r.value.pool, h[i]);
      }
      forall i, j | 0 <= i < j < |h| ensures h[i] != h[j] {
        TwiceCounts(h, i, j);
      }
    }
  }

  lemma TwiceCounts<T>(s: seq<T>, i: nat, j: nat)
    requires i < j < |s|
    ensures s[i] == s[j] ==> multiset(s)[s[i]] >= 2
  {
    assert s == s[..j] + [s[j]] + s[j + 1..];
    assert s[..j][i] == s[i];
  }
}

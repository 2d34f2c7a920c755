/** The frame allocator as it runs: a global cache with its debris, and a thread's cache with
    its frame table, updated in place.  Every method computes the operation of `FramePool` it
    is named after.  A fragment is a pointer with its size; the source keeps the pointers and
    the sizes in two parallel vectors (and two parallel arrays). */
module MemoryCaches {
  import opened Options
  import opened Arithmetic
  import opened FramePool

  lemma TakeStep(fs: seq<Frag>, need: int, full: Taken, i: nat)
    requires fs != [] && need > 0 && i <= |full.frames|
    requires TakeDebris(fs, need) == Taken(full.rest, full.frames[i..])
    ensures i < |full.frames| && full.frames[i] == fs[|fs| - 1]
    ensures TakeDebris(fs[..|fs| - 1], need - fs[|fs| - 1].size) == Taken(full.rest, full.frames[i + 1..])
  {
    assert full.frames[i..][0] == fs[|fs| - 1];
    assert full.frames[i..][1..] == full.frames[i + 1..];
  }

  lemma FillStep<T>(full: seq<T>, was: seq<T>, i: nat)
    requires i < |full| && i < |was|
    ensures (full[..i] + was[i..])[i := full[i]] == full[..i + 1] + was[i + 1..]
  {
  }

  /** A refill in debris mode, case by case. */
  lemma DebrisModeCases(q: Pool, minNum: nat, maxFrames: nat)
    requires PoolOk(q) && q.debrisMode && 0 < minNum <= q.page2Size && maxFrames == FrameCount(minNum, q.debrisMin)
    ensures var r := FramePool.InitSubCacheFrame(q, minNum, maxFrames);
      if UsesDebris(q, minNum, maxFrames) then
        var t := TakeDebris(q.debris, minNum);
        && r == Some(Refill(q.(debris := t.rest), t.frames))
        && |t.frames| <= maxFrames && PoolOk(q.(debris := t.rest))
      else if NewPage(q).None? then r.None?
      else
        var n := NewPage(q).value.(debrisMode := false);
        && PoolOk(n) && PageSuffices(n, minNum) && r == FramePool.InitSubCacheFrame(n, minNum, maxFrames)
  {
    if UsesDebris(q, minNum, maxFrames) {
      DebrisSuffices(q, minNum);
      DebrisRefill(q, minNum, Object(0, 0));
    } else if NewPage(q).Some? {
      NewPageRefill(q, minNum, Object(0, 0));
    }
  }

  lemma AddAllNext(p: Pool, fs: seq<Frag>, i: nat)
    requires i < |fs|
    ensures AddAll(p, fs[..i + 1]) == FramePool.AddDebris(AddAll(p, fs[..i]), fs[i])
    ensures AddAll(p, fs[..0]) == p
  {
    assert fs[..i + 1][..i] == fs[..i];
  }

  // ----- numbers of objects ---------------------------------------------------------

  /** The number object `i` of page `page` is initialised with; pages have a power of two of objects, so
      the shift in the source is this product. */
  function NumberOf(page: nat, i: nat, page2Size: nat): nat { page * page2Size + i }

  ghost predicate IsPage(ns: seq<nat>, page: nat, page2Size: nat) {
    |ns| == page2Size && forall i :: 0 <= i < page2Size ==> ns[i] == NumberOf(page, i, page2Size)
  }

  ghost predicate Numbered(numbers: seq<seq<nat>>, page2Size: nat) {
    forall p :: 0 <= p < |numbers| ==> IsPage(numbers[p], p, page2Size)
  }

  /** `get_object_by_index` finds an object again by its number; no two objects have the same. */
  lemma NumbersAreNames(numbers: seq<seq<nat>>, page2Size: nat, page: nat, i: nat)
    requires Numbered(numbers, page2Size) && page < |numbers| && i < page2Size
    ensures |numbers[page]| == page2Size
    ensures numbers[page][i] / page2Size == page && numbers[page][i] % page2Size == i
  {
    assert IsPage(numbers[page], page, page2Size);
    DivModUnique(page, i, page2Size);
  }

  // ----- the caches -----------------------------------------------------------------

  /** `memory_cache_t` */
  class MemoryCache {
    const page1Size: nat
    const page2Size: nat
    const debrisMin: nat
    var debrisMode: bool
    var curPage1: int
    var curPage2: nat
    var debris: seq<Frag>
    var numbers: seq<seq<nat>>

    ghost predicate Valid()
      reads this
    {
      curPage1 >= 0 && PoolOk(Model()) && |numbers| == curPage1 + 1 && Numbered(numbers, page2Size)
    }

    ghost function Model(): Pool
      reads this
    {
      Pool(page1Size, page2Size, debrisMin, if curPage1 >= 0 then curPage1 + 1 else 0, curPage2, debrisMode, debris)
    }

    constructor (page1Size: nat, page2Size: nat, debrisMin: nat)
      requires page1Size > 0 && page2Size > 0 && debrisMin > 0
      ensures Valid() && Model() == NewAlloc(page1Size, page2Size, debrisMin).pool
    {
      this.page1Size, this.page2Size, this.debrisMin := page1Size, page2Size, debrisMin;
      debrisMode := false;
      debris, numbers := [], [];
      curPage1, curPage2 := -1, 0;
      new;
      var exited := InitNewPage2();
    }

    /** `init_new_page2`; true when the process ends because the page table is full.  The objects of the
        page get their numbers. */
    method InitNewPage2() returns (exited: bool)
      requires curPage1 >= -1 && |numbers| == curPage1 + 1 && Numbered(numbers, page2Size)
      modifies this`curPage1, this`curPage2, this`numbers
      ensures exited <==> NewPage(old(Model())).None?
      ensures !exited ==> Some(Model()) == NewPage(old(Model())) && curPage1 == old(curPage1) + 1
      ensures !exited ==> |numbers| == curPage1 + 1 && Numbered(numbers, page2Size) && old(numbers) <= numbers
    {
      curPage1 := curPage1 + 1;
      if curPage1 >= page1Size {
        return true;
      }
      var page := NumberObjects(curPage1);
      numbers := numbers + [page];
      curPage2 := 0;
      exited := false;
    }

    /** The loop over the objects of a new page */
    method NumberObjects(page: nat) returns (ns: seq<nat>)
      ensures IsPage(ns, page, page2Size)
    {
      ns := [];
      for i := 0 to page2Size
        invariant |ns| == i && forall j :: 0 <= j < i ==> ns[j] == NumberOf(page, j, page2Size)
      {
        ns := ns + [NumberOf(page, i, page2Size)];
      }
    }

    method AddDebris(f: Frag)
      modifies this`debris
      ensures Model() == FramePool.AddDebris(old(Model()), f)
    {
      if f.size < debrisMin {
        return;
      }
      debris := debris + [f];
    }

    /** Adds up the debris, unless its number alone shows that there is enough. */
    method UseDebris(minNum: nat, maxFrames: nat) returns (use: bool)
      ensures use <==> UsesDebris(Model(), minNum, maxFrames)
    {
      var size := |debris|;
      use := false;
      if maxFrames <= size {
        use := true;
      } else {
        var total := 0;
        var i := 0;
        while i < size
          invariant 0 <= i <= size && total == TotalSize(debris[..i])
        {
          assert debris[..i + 1][..i] == debris[..i];
          total := total + debris[i].size;
          i := i + 1;
        }
        assert debris[..size] == debris;
        if total >= minNum {
          use := true;
        }
      }
    }

    /** Moves the last fragment of debris into entry `i`. */
    method MoveOne(frames: array<Frag>, i: nat) returns (size: nat)
      requires debris != [] && i < frames.Length
      modifies this`debris, frames
      ensures var last := old(debris)[|old(debris)| - 1];
        && debris == old(debris)[..|old(debris)| - 1] && size == last.size
        && frames[..] == old(frames[..])[i := last]
    {
      frames[i] := debris[|debris| - 1];
      size := debris[|debris| - 1].size;
      debris := debris[..|debris| - 1];
    }

    /** Moves debris from the back of the vector into the frame table. */
    method MoveDebris(frames: array<Frag>, minNum: nat)
      requires 0 < minNum && |TakeDebris(debris, minNum).frames| <= frames.Length
      modifies this`debris, frames
      ensures var t := TakeDebris(old(debris), minNum);
        && debris == t.rest && |t.frames| <= frames.Length
        && frames[..] == t.frames + old(frames[..])[|t.frames|..]
    {
      ghost var full := TakeDebris(debris, minNum);
      ghost var was := frames[..];
      var added := 0;
      var count := |debris|;
      var i := 0;
      while i < count
        invariant 0 <= i <= count && |debris| == count - i
        invariant added < minNum && i <= |full.frames|
        invariant TakeDebris(debris, minNum - added) == Taken(full.rest, full.frames[i..])
        invariant frames[..] == full.frames[..i] + was[i..]
      {
        TakeStep(debris, minNum - added, full, i);
        FillStep(full.frames, was, i);
        var size := MoveOne(frames, i);
        added := added + size;
        i := i + 1;
        if added >= minNum {
          assert full.frames[i..] == [];
          break;
        }
      }
      assert full.frames[..i] == full.frames;
    }

    /** The first half of `init_sub_cache_frame`: takes the frame from the current page, or
        gives the page up. */
    method TakeFromPage(frames: array<Frag>, minNum: nat) returns (done: bool)
      requires Valid() && 0 < minNum && frames.Length > 0
      modifies this`curPage2, this`debris, this`debrisMode, frames
      ensures done == PageSuffices(old(Model()), minNum)
      ensures var p := old(Model());
        if done then
          && Model() == p.(used := p.used + minNum)
          && frames[..] == [Frag(p.pages - 1, p.used, minNum)] + old(frames[..])[1..]
        else
          Model() == (if p.debrisMode then p else LeavePage(p)) && frames[..] == old(frames[..])
    {
      done := false;
      if !debrisMode {
        var left := page2Size - curPage2;
        if left >= minNum {
          frames[0] := Frag(curPage1, curPage2, minNum);
          curPage2 := curPage2 + minNum;
          done := true;
        } else {
          if left >= debrisMin {
            AddDebris(Frag(curPage1, curPage2, left));
          }
          debrisMode := true;
        }
      }
    }

    /** What a refill leaves behind. */
    ghost predicate Refilled(frames: array<Frag>, r: Option<Refill>, was: seq<Frag>, exited: bool)
      reads this, frames
    {
      && (exited <==> r.None?)
      && (!exited ==> Valid() && Model() == r.value.pool && |r.value.frames| <= |was|
                      && frames[..] == r.value.frames + was[|r.value.frames|..])
    }

    /** The second half of `init_sub_cache_frame`: debris, or else a new page. */
    method RefillInDebrisMode(frames: array<Frag>, minNum: nat, maxFrames: nat) returns (exited: bool)
      requires Valid() && debrisMode
      requires 0 < minNum <= page2Size && maxFrames == FrameCount(minNum, debrisMin) == frames.Length
      modifies this, frames
      ensures Refilled(frames, FramePool.InitSubCacheFrame(old(Model()), minNum, maxFrames), old(frames[..]), exited)
      decreases 1, 0
    {
      DebrisModeCases(Model(), minNum, maxFrames);
      var useDebris := UseDebris(minNum, maxFrames);
      if useDebris {
        MoveDebris(frames, minNum);
        exited := false;
      } else {
        exited := InitNewPage2();
        if exited {
          return;
        }
        debrisMode := false;
        exited := InitSubCacheFrame(frames, minNum, maxFrames);
      }
    }

    /** `init_sub_cache_frame`: fills a frame table under the lock. */
    method InitSubCacheFrame(frames: array<Frag>, minNum: nat, maxFrames: nat) returns (exited: bool)
      requires Valid() && 0 < minNum <= page2Size && maxFrames == FrameCount(minNum, debrisMin) == frames.Length
      modifies this, frames
      ensures Refilled(frames, FramePool.InitSubCacheFrame(old(Model()), minNum, maxFrames), old(frames[..]), exited)
      decreases if PageSuffices(Model(), minNum) then 0 else 1, 1
    {
      FrameCountCovers(minNum, debrisMin);
      ghost var p := Model();
      if PageSuffices(p, minNum) {
        PageRefill(p, minNum, Object(0, 0));
      } else if !debrisMode {
        LeavePageCorrect(p, minNum, Object(0, 0));
        LeaveThenRefill(p, minNum, maxFrames);
      }
      var done := TakeFromPage(frames, minNum);
      if done {
        return false;
      }
      exited := RefillInDebrisMode(frames, minNum, maxFrames);
    }
  }

  /** `tls_memory_cache_t` */
  class TlsMemoryCache {
    const cache: MemoryCache
    const minNum: nat
    const frameMin: nat
    const frameNum: nat
    const frames: array<Frag>
    var lastFrame: nat
    var lastNum: int

    ghost function Model(): Tls
      reads this, frames
    {
      Tls(frames[..], lastFrame, lastNum)
    }

    ghost predicate Valid()
      reads this, frames, cache
    {
      && cache.Valid() && 0 < minNum <= cache.page2Size && frameMin == cache.debrisMin
      && frameNum == FrameCount(minNum, frameMin) == frames.Length && TlsOk(cache.Model(), Model(), minNum)
    }

    /** The cache before its first refill, all frames null */
    constructor (cache: MemoryCache, minNum: nat)
      requires cache.debrisMin > 0
      ensures this.cache == cache && this.minNum == minNum && frameMin == cache.debrisMin
      ensures fresh(frames) && frameNum == FrameCount(minNum, cache.debrisMin) == frames.Length
      ensures lastFrame == 0 && lastNum == -1
    {
      this.cache, this.minNum := cache, minNum;
      frameMin := cache.debrisMin;
      frameNum := if minNum % cache.debrisMin > 0 then minNum / cache.debrisMin + 1 else minNum / cache.debrisMin;
      frames := new Frag[FrameCount(minNum, cache.debrisMin)](_ => NO_FRAG);
      lastFrame, lastNum := 0, -1;
    }

    method ClearFrames()
      requires frameNum == frames.Length
      modifies frames
      ensures frames[..] == seq(frameNum, _ => NO_FRAG)
    {
      var i := 0;
      while i < frameNum
        invariant 0 <= i <= frameNum && forall j :: 0 <= j < i ==> frames[j] == NO_FRAG
      {
        frames[i] := NO_FRAG;
        i := i + 1;
      }
    }

    /** `reinit_sub_cache`: clears the frame table and has it filled under the lock. */
    method ReinitSubCache() returns (exited: bool)
      requires cache.Valid() && 0 < minNum <= cache.page2Size && frameMin == cache.debrisMin
      requires frameNum == FrameCount(minNum, frameMin) == frames.Length
      modifies cache, frames
      ensures exited <==> CreateTls(old(cache.Model()), minNum).None?
      ensures !exited ==>
        && cache.Valid()
        && CreateTls(old(cache.Model()), minNum) == Some(Got(cache.Model(), Tls(frames[..], 0, -1), Object(0, 0)))
    {
      ClearFrames();
      ghost var p := cache.Model();
      exited := cache.InitSubCacheFrame(frames, minNum, frameNum);
      if !exited {
        var r := FramePool.InitSubCacheFrame(p, minNum, frameNum).value;
        assert frames[..] == Pad(r.frames, frameNum);
      }
    }

    /** `get_next_object` */
    method GetNextObject() returns (exited: bool, obj: Object)
      requires Valid()
      modifies this, cache, frames
      ensures exited <==> GetNext(old(cache.Model()), old(Model()), minNum).None?
      ensures !exited ==>
        && Valid()
        && GetNext(old(cache.Model()), old(Model()), minNum) == Some(Got(cache.Model(), Model(), obj))
    {
      GetNextShape(cache.Model(), Model(), minNum);
      exited, obj := false, Object(0, 0);
      lastNum := lastNum + 1;
      if lastNum >= frames[lastFrame].size {
        lastFrame := lastFrame + 1;
        lastNum := 0;
        if lastFrame >= frameNum || frames[lastFrame].size == 0 {
          CreateTlsShape(cache.Model(), minNum);
          exited := ReinitSubCache();
          if exited {
            return;
          }
          lastFrame := 0;
          lastNum := 0;
        }
      }
      obj := Object(frames[lastFrame].page, frames[lastFrame].off + lastNum);
    }

    /** A fragment goes back unless it is too small. */
    method GiveBackOne(f: Frag)
      requires frameMin == cache.debrisMin
      modifies cache`debris
      ensures cache.Model() == FramePool.AddDebris(old(cache.Model()), f)
    {
      if f.size >= frameMin {
        cache.AddDebris(f);
      }
    }

    /** What is left of the frame in use */
    method GiveBackRest()
      requires Valid()
      modifies cache`debris
      ensures cache.Model() == FramePool.AddDebris(old(cache.Model()), Unused(Model())[0])
    {
      var unuse := frames[lastFrame].size - lastNum - 1;
      if unuse >= frameMin {
        cache.AddDebris(Frag(frames[lastFrame].page, frames[lastFrame].off + lastNum + 1, unuse));
      }
    }

    /** The locked part of `free_unuse_object`. */
    method GiveBack()
      requires Valid()
      modifies cache`debris
      ensures cache.Model() == AddAll(old(cache.Model()), Unused(Model()))
    {
      ghost var p, fs := cache.Model(), Unused(Model());
      AddAllNext(p, fs, 0);
      GiveBackRest();
      GiveBackFrames(p, fs);
    }

    /** The frames after it */
    method GiveBackFrames(ghost p: Pool, ghost fs: seq<Frag>)
      requires frameMin == cache.debrisMin && frameNum == frames.Length && lastFrame < frameNum
      requires |fs| == frameNum - lastFrame && forall j :: 0 < j < |fs| ==> fs[j] == frames[lastFrame + j]
      requires cache.Model() == AddAll(p, fs[..1])
      modifies cache`debris
      ensures cache.Model() == AddAll(p, fs)
    {
      var i := lastFrame + 1;
      while i < frameNum
        invariant lastFrame + 1 <= i <= frameNum
        invariant cache.Model() == AddAll(p, fs[..i - lastFrame])
      {
        AddAllNext(p, fs, i - lastFrame);
        GiveBackOne(frames[i]);
        i := i + 1;
      }
      assert fs[..i - lastFrame] == fs;
    }

    /** `free_unuse_object`: gives what is left back to the pool, and forgets it. */
    method FreeUnuseObject()
      requires Valid()
      modifies cache`debris, frames
      ensures Valid()
      ensures cache.Model() == AddAll(old(cache.Model()), Unused(old(Model())))
      ensures Model() == Emptied(old(Model()))
    {
      UnusedOk(cache.Model(), Model(), minNum);
      AddAllCounts(cache.Model(), Unused(Model()), Object(0, 0));
      GiveBack();
      ClearFrames();
    }
  }

  /** The constructor of `tls_memory_cache_t`; null when the process ends, because a page has fewer
      objects than `minNum` or because the pool is used up. */
  method OpenTlsCache(cache: MemoryCache, minNum: nat) returns (tls: TlsMemoryCache?)
    requires cache.Valid() && minNum > 0
    modifies cache
    ensures tls == null <==> minNum > cache.page2Size || CreateTls(old(cache.Model()), minNum).None?
    ensures tls != null ==>
      && fresh(tls) && tls.cache == cache && tls.minNum == minNum && tls.Valid() && fresh(tls.frames)
      && CreateTls(old(cache.Model()), minNum) == Some(Got(cache.Model(), tls.Model(), Object(0, 0)))
  {
    if minNum > cache.page2Size {
      return null;
    }
    CreateTlsShape(cache.Model(), minNum);
    tls := new TlsMemoryCache(cache, minNum);
    var exited := tls.ReinitSubCache();
    if exited {
      return null;
    }
    tls.lastFrame := 0;
    tls.lastNum := -1;
  }
}

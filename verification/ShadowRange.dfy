/** Filling a range of shadow memory with one value, page by page. */
module ShadowRange {
  import opened Options
  import opened ShadowSlots
  import opened ShadowMemory

  const WORD: nat := 0x1_0000_0000_0000_0000

  /** `c` is the cell of an address in [from, to). */
  ghost predicate Covers(from: nat, to: nat, c: Cell) {
    exists x: nat :: from <= x < to && CellOf(x) == c
  }

  ghost predicate CoversPage(from: nat, to: nat, p: PageId) {
    exists x: nat :: from <= x < to && PageOf(x) == p
  }

  /** `now` is `m` with [from, to) filled: the cells of the range hold `v`, the rest of their pages
      is there, and nothing else is different. */
  ghost predicate IsFilled<T>(now: Flat<T>, m: Flat<T>, from: nat, to: nat, v: T, zero: T) {
    forall c: Cell :: At(now, c) ==
      if Covers(from, to, c) then Some(v)
      else if At(m, c).None? && CoversPage(from, to, c.page) && c.offset < PAGE_SIZE then Some(zero)
      else At(m, c)
  }

  /** For a range below 2^48, the cell of an address below 2^48 is covered exactly when the address
      is in the range. */
  lemma CoversIsRange(from: nat, to: nat, a: nat)
    requires to <= SPAN && a < SPAN
    ensures Covers(from, to, CellOf(a)) <==> from <= a < to
  {
    forall x: nat | from <= x < to && CellOf(x) == CellOf(a) ensures x == a {
      SameCellIff(x, a);
    }
  }

  /** `n` stores of `v`, from cell `c` on. */
  ghost function StoredRun<T>(m: Flat<T>, c: Cell, n: nat, v: T): Flat<T> {
    if n == 0 then m else Stored(StoredRun(m, c, n - 1, v), Cell(c.page, c.offset + n - 1), v)
  }

  lemma {:induction false} RunAt<T>(m: Flat<T>, c: Cell, n: nat, v: T, d: Cell)
    ensures At(StoredRun(m, c, n, v), d) ==
            if d.page == c.page && c.offset <= d.offset < c.offset + n then Some(v) else At(m, d)
  {
    if n > 0 {
      RunAt(m, c, n - 1, v, d);
    }
  }

  /** The cells of a run that stays in its page. */
  lemma RunCovers(start: nat, n: nat, to: nat, c: Cell)
    requires 0 < n <= PAGE_SIZE - Offset(start) && to == start + n
    ensures Covers(start, to, c) <==> c.page == PageOf(start) && Offset(start) <= c.offset < Offset(start) + n
    ensures CoversPage(start, to, c.page) <==> c.page == PageOf(start)
  {
    forall x: nat | start <= x < to ensures CellOf(x) == Cell(PageOf(start), Offset(start) + (x - start)) {
      PageIsContiguous(start, x - start);
      assert x == start + (x - start);
    }
    if c.page == PageOf(start) && Offset(start) <= c.offset < Offset(start) + n {
      var x := start + (c.offset - Offset(start));
      assert start <= x < to && CellOf(x) == c;
    }
    assert start <= start < to && PageOf(start) == PageOf(start);
  }

  lemma CoversBoth(from: nat, mid: nat, to: nat, c: Cell)
    requires from <= mid <= to
    ensures Covers(from, to, c) <==> Covers(from, mid, c) || Covers(mid, to, c)
    ensures CoversPage(from, to, c.page) <==> CoversPage(from, mid, c.page) || CoversPage(mid, to, c.page)
  {
    forall x: nat | from <= x < to && CellOf(x) == c ensures Covers(from, mid, c) || Covers(mid, to, c) {
      assert from <= x < mid || mid <= x < to;
    }
    forall x: nat | from <= x < to && PageOf(x) == c.page ensures CoversPage(from, mid, c.page) || CoversPage(mid, to, c.page) {
      assert from <= x < mid || mid <= x < to;
    }
  }

  /** A run of stores after the page of its first cell was created extends what is filled. */
  lemma RunFills<T>(now: Flat<T>, m: Flat<T>, from: nat, start: nat, n: nat, to: nat, v: T, zero: T)
    requires IsFilled(now, m, from, start, v, zero) && from <= start
    requires 0 < n <= PAGE_SIZE - Offset(start) && to == start + n
    ensures IsFilled(StoredRun(Created(now, PageOf(start), zero), CellOf(start), n, v), m, from, to, v, zero)
  {
    var page := Created(now, PageOf(start), zero);
    forall c: Cell
      ensures At(StoredRun(page, CellOf(start), n, v), c) ==
              if Covers(from, to, c) then Some(v)
              else if At(m, c).None? && CoversPage(from, to, c.page) && c.offset < PAGE_SIZE then Some(zero)
              else At(m, c)
    {
      RunAt(page, CellOf(start), n, v, c);
      RunCovers(start, n, to, c);
      CoversBoth(from, start, to, c);
    }
  }

  /** 64-bit addition */
  function EndAddress(address: nat, accessLen: nat): (end: nat)
    requires address < WORD && accessLen < 0x1_0000_0000
    ensures if address + accessLen < WORD then end == address + accessLen else end < address
  {
    (address + accessLen) % WORD
  }

  /** Stores through the pointer to the cell of `start`, to the end of its page or to `end`. */
  method FillCells<T>(m: ShadowMemory<T>, page: array<T>, index: nat, start: nat, end: nat, initializer: T)
      returns (i: nat, cur: nat)
    requires m.Valid() && m.Points(page, index, CellOf(start)) && start < end
    modifies m`contents, page
    ensures m.Valid()
    ensures 0 < i <= PAGE_SIZE - Offset(start) && cur == start + i <= end
    ensures m.contents == StoredRun(old(m.contents), CellOf(start), i, initializer)
  {
    var maxBytes := PAGE_SIZE - Offset(start);
    i, cur := 0, start;
    while i < maxBytes && cur < end
      invariant i <= maxBytes && cur == start + i <= end
      invariant m.Valid() && m.Points(page, index, CellOf(start))
      invariant m.contents == StoredRun(old(m.contents), CellOf(start), i, initializer)
    {
      m.Store(CellOf(start), page, index, i, initializer);
      i, cur := i + 1, cur + 1;
    }
  }

  /** Goes on from `start` to the end of its page or to `end`. */
  method FillPage<T>(m: ShadowMemory<T>, start: nat, end: nat, initializer: T, ghost from: nat, ghost was: Flat<T>)
      returns (cur: nat)
    requires m.Valid() && from <= start < end
    requires IsFilled(m.contents, was, from, start, initializer, m.zero)
    modifies m.Repr
    ensures m.Valid() && fresh(m.Repr - old(m.Repr))
    ensures start < cur <= end
    ensures IsFilled(m.contents, was, from, cur, initializer, m.zero)
  {
    ghost var before := m.contents;
    var page, index := m.GetOrCreateShadowAddress(start);
    var i;
    i, cur := FillCells(m, page, index, start, end, initializer);
    RunFills(before, was, from, start, i, cur, initializer, m.zero);
  }

  lemma FilledToEnd<T>(now: Flat<T>, m: Flat<T>, from: nat, cur: nat, end: nat, v: T, zero: T)
    requires IsFilled(now, m, from, cur, v, zero) && cur == if end < from then from else end
    ensures IsFilled(now, m, from, end, v, zero)
  {
  }

  /** `init_shadow_memory_space`: fills [address, address + accessLen), over any number of pages --
      unless the end does not fit 64 bits, when the range is empty and nothing changes. */
  method InitShadowMemorySpace<T>(m: ShadowMemory<T>, address: nat, accessLen: nat, initializer: T)
    requires m.Valid()
    requires address < WORD && accessLen < 0x1_0000_0000
    modifies m.Repr
    ensures m.Valid()
    ensures IsFilled(m.contents, old(m.contents), address, EndAddress(address, accessLen), initializer, m.zero)
  {
    var end := EndAddress(address, accessLen);
    var cur := address;
    ghost var was := m.contents;
    while cur < end
      invariant address <= cur && (if end < address then cur == address else cur <= end)
      invariant m.Valid() && fresh(m.Repr - old(m.Repr))
      invariant IsFilled(m.contents, was, address, cur, initializer, m.zero)
    {
      cur := FillPage(m, cur, end, initializer, address, was);
    }
    FilledToEnd(m.contents, was, address, cur, end, initializer, m.zero);
  }
}

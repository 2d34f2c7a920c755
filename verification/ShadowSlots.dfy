/** How an address is split into a directory slot, a table slot and a page offset. */
module ShadowSlots {
  import opened Arithmetic

  const L1_ENTRIES: nat := 0x100000
  const L2_ENTRIES: nat := 0x1000
  const PAGE_SIZE: nat := 0x10000
  const SPAN: nat := 0x1_0000_0000_0000

  /** `LEVEL_1_PAGE_TABLE_SLOT`, `LEVEL_2_PAGE_TABLE_SLOT` and `PAGE_OFFSET` */
  function L1Slot(a: nat): (slot: nat)
    ensures slot < L1_ENTRIES
  {
    (a / (L2_ENTRIES * PAGE_SIZE)) % L1_ENTRIES
  }

  function L2Slot(a: nat): (slot: nat)
    ensures slot < L2_ENTRIES
  {
    (a / PAGE_SIZE) % L2_ENTRIES
  }

  function Offset(a: nat): (offset: nat)
    ensures offset < PAGE_SIZE
  {
    a % PAGE_SIZE
  }

  const PAGE_OFFSET_MASK: nat := 0xFFFF

  /** `IS_ACCESS_WITHIN_PAGE_BOUNDARY`; false also for an access that ends with its page. */
  predicate WithinPage(a: nat, n: nat) { Offset(a) <= PAGE_OFFSET_MASK - n }

  datatype PageId = PageId(l1: nat, l2: nat)
  datatype Cell = Cell(page: PageId, offset: nat)

  function PageOf(a: nat): PageId { PageId(L1Slot(a), L2Slot(a)) }

  function CellOf(a: nat): Cell { Cell(PageOf(a), Offset(a)) }

  /** The slots put together again. */
  function Join(c: Cell): nat { (c.page.l1 * L2_ENTRIES + c.page.l2) * PAGE_SIZE + c.offset }

  lemma TableOfPage(a: nat)
    ensures L1Slot(a) == (a / PAGE_SIZE / L2_ENTRIES) % L1_ENTRIES
  {
    var q := a / PAGE_SIZE;
    assert a == q / L2_ENTRIES * (L2_ENTRIES * PAGE_SIZE) + ((q % L2_ENTRIES) * PAGE_SIZE + a % PAGE_SIZE);
  }

  lemma SplitJoins(a: nat)
    ensures Join(CellOf(a)) == a % SPAN
  {
    TableOfPage(a);
    var p := a / PAGE_SIZE;
    var t := p / L2_ENTRIES;
    var u := t / L1_ENTRIES;
    assert a == u * SPAN + Join(CellOf(a));
    RemainderIs(a, u, Join(CellOf(a)));
  }

  lemma RemainderIs(a: nat, u: nat, r: nat)
    requires a == u * SPAN + r && r < SPAN
    ensures a % SPAN == r
  {
  }

  /** Two addresses share a cell exactly when they agree modulo 2^48: below 2^48 the split is
      injective. */
  lemma SameCellIff(a: nat, b: nat)
    ensures CellOf(a) == CellOf(b) <==> a % SPAN == b % SPAN
    ensures a < SPAN && b < SPAN && CellOf(a) == CellOf(b) ==> a == b
  {
    SplitJoins(a);
    SplitJoins(b);
    if a % SPAN == b % SPAN {
      JoinIsInjective(CellOf(a), CellOf(b));
    }
    if a < SPAN && b < SPAN {
      SmallMod(a, SPAN);
      SmallMod(b, SPAN);
    }
  }

  lemma JoinIsInjective(c: Cell, d: Cell)
    requires Join(c) == Join(d)
    requires c.page.l2 < L2_ENTRIES && d.page.l2 < L2_ENTRIES && c.offset < PAGE_SIZE && d.offset < PAGE_SIZE
    ensures c == d
  {
  }

  /** Up to the end of its page, the pointer to the cell of `a` moves along with the address. */
  lemma PageIsContiguous(a: nat, i: nat)
    requires i < PAGE_SIZE - Offset(a)
    ensures CellOf(a + i) == Cell(PageOf(a), Offset(a) + i)
  {
    assert a + i == (a / PAGE_SIZE) * PAGE_SIZE + (Offset(a) + i);
    assert (a + i) / PAGE_SIZE == a / PAGE_SIZE;
    TableOfPage(a);
    TableOfPage(a + i);
  }

  // ----- the bytes of an access -----------------------------------------------------

  /** The cell of byte `i` of an access at address `a` */
  function ByteCell(a: nat, i: nat): Cell { CellOf(a + i) }

  /** `c` is the cell of one of the first `n` bytes at `a`. */
  ghost predicate Touches(a: nat, n: nat, c: Cell) {
    exists i: nat :: i < n && ByteCell(a, i) == c
  }

  /** One of the bytes from `from` up to `n` is on page `p`. */
  ghost predicate TouchesPage(a: nat, from: nat, n: nat, p: PageId) {
    exists i: nat :: from <= i < n && ByteCell(a, i).page == p
  }

  lemma DistinctCells(a: nat, i: nat, j: nat)
    requires i < SPAN && j < SPAN && ByteCell(a, i) == ByteCell(a, j)
    ensures i == j
  {
    SameCellIff(a + i, a + j);
    SameRemainder(a, i, j);
  }

  lemma SameRemainder(a: nat, i: nat, j: nat)
    requires i < SPAN && j < SPAN && (a + i) % SPAN == (a + j) % SPAN
    ensures i == j
  {
    var p, q := (a + i) / SPAN, (a + j) / SPAN;
    assert i - j == (p - q) * SPAN;
  }

  lemma TouchesLast(a: nat, from: nat, k: nat, c: Cell)
    requires k > 0
    ensures Touches(a, k, c) <==> Touches(a, k - 1, c) || ByteCell(a, k - 1) == c
    ensures TouchesPage(a, from, k, c.page) <==> TouchesPage(a, from, k - 1, c.page) || (from < k && ByteCell(a, k - 1).page == c.page)
  {
    var last := ByteCell(a, k - 1);
    if last == c {
      assert k - 1 < k && ByteCell(a, k - 1) == c;
    }
    if from < k && last.page == c.page {
      assert from <= k - 1 < k && ByteCell(a, k - 1).page == c.page;
    }
  }

  lemma NotBefore(a: nat, j: nat)
    requires j < SPAN
    ensures !Touches(a, j, ByteCell(a, j))
  {
    forall i: nat | i < j ensures ByteCell(a, i) != ByteCell(a, j) {
      if ByteCell(a, i) == ByteCell(a, j) {
        DistinctCells(a, i, j);
      }
    }
  }
}

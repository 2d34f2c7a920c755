/** Two-level shadow memory: a directory of tables of pages, created on demand. */
module ShadowMemory {
  import opened Options
  import opened ShadowSlots

  /** Shadow memory as a flat map from cells to values, told by what made it: creating a page and
      storing a value. */
  datatype Flat<T> = Blank | Created(m: Flat<T>, p: PageId, zero: T) | Stored(m: Flat<T>, cell: Cell, v: T)

  /** What a cell holds; none if its page was never created. */
  ghost function At<T>(m: Flat<T>, c: Cell): Option<T> {
    match m
    case Blank => None
    case Created(m', p, zero) => if At(m', c).None? && c.page == p && c.offset < PAGE_SIZE then Some(zero) else At(m', c)
    case Stored(m', cell, v) => if c == cell then Some(v) else At(m', c)
  }

  /** The value of a cell; a page that is not there yet would be filled with `zero`. */
  ghost function OrZero<T>(m: Flat<T>, c: Cell, zero: T): T {
    match At(m, c)
    case Some(v) => v
    case None => zero
  }

  /** `TlsShadowMemory<T>`; `zero` is the value of zero-filled memory. */
  class ShadowMemory<T> {
    const zero: T
    const pageDirectory: array<array?<array?<T>>>
    ghost var tables: map<nat, array<array?<T>>>
    ghost var pages: map<PageId, array<T>>
    ghost var home: map<array<T>, PageId>
    ghost var contents: Flat<T>
    ghost var Repr: set<object>

    ghost predicate Valid()
      reads this, Repr
    {
      ValidLayout() && ValidContents()
    }

    ghost predicate ValidLayout()
      reads this, Repr
    {
      && this in Repr && pageDirectory in Repr
      && pageDirectory.Length == L1_ENTRIES
      && ValidTables() && ValidPages()
    }

    /** The directory holds exactly `tables`, each once. */
    ghost predicate ValidTables()
      reads this, Repr
      requires pageDirectory in Repr && pageDirectory.Length == L1_ENTRIES
    {
      && (forall i: nat :: i in tables ==> i < L1_ENTRIES && tables[i] in Repr && tables[i].Length == L2_ENTRIES)
      && (forall i: nat :: i < L1_ENTRIES ==> pageDirectory[i] == if i in tables then tables[i] else null)
      && (forall i, j :: i in tables && j in tables && tables[i] == tables[j] ==> i == j)
    }

    /** The tables hold exactly `pages`, each once. */
    ghost predicate ValidPages()
      reads this, Repr
      requires pageDirectory in Repr && pageDirectory.Length == L1_ENTRIES && ValidTables()
    {
      && (forall k {:trigger k in pages} :: k in pages ==> k.l1 in tables && k.l2 < L2_ENTRIES && pages[k] in Repr && pages[k].Length == PAGE_SIZE)
      && (forall i, j: nat {:trigger tables[i][j]} :: i in tables && j < L2_ENTRIES ==> tables[i][j] == if PageId(i, j) in pages then pages[PageId(i, j)] else null)
      && (forall k {:trigger k in pages} :: k in pages ==> pages[k] in home && home[pages[k]] == k)
    }

    /** `contents` is what the pages hold, cell by cell. */
    ghost predicate ValidContents()
      reads this, Repr
      requires ValidLayout()
    {
      forall c: Cell {:trigger At(contents, c)} ::
        At(contents, c) == if c.page in pages && c.offset < PAGE_SIZE then Some(pages[c.page][c.offset]) else None
    }

    /** `page` and `index` are a pointer to cell `c`. */
    ghost predicate Points(page: array?<T>, index: nat, c: Cell)
      reads this, Repr
    {
      c.page in pages && page == pages[c.page] && index == c.offset < page.Length && page in Repr
    }

    constructor (zero: T)
      ensures Valid() && fresh(Repr) && this.zero == zero
      ensures contents == Blank
    {
      this.zero := zero;
      pageDirectory := new array?<array?<T>>[L1_ENTRIES](_ => null);
      tables, pages, home, contents := map[], map[], map[], Blank;
      new;
      Repr := {this, pageDirectory};
    }

    /** A new table of null slots. */
    method CreateTable(l1: nat) returns (table: array<array?<T>>)
      requires ValidLayout() && l1 < L1_ENTRIES && l1 !in tables
      modifies this`tables, this`Repr, pageDirectory
      ensures ValidLayout() && fresh(table) && Repr == old(Repr) + {table}
      ensures l1 in tables && table == tables[l1]
      ensures forall k :: k in pages ==> pages[k][..] == old(pages[k][..])
    {
      table := new array?<T>[L2_ENTRIES](_ => null);
      pageDirectory[l1] := table;
      tables := tables[l1 := table];
      Repr := Repr + {table};
    }

    /** The table in directory slot `l1`, created if absent. */
    method GetOrCreateTable(l1: nat) returns (table: array<array?<T>>)
      requires Valid() && l1 < L1_ENTRIES
      modifies Repr
      ensures Valid() && fresh(Repr - old(Repr))
      ensures l1 in tables && table == tables[l1]
      ensures pages == old(pages) && contents == old(contents)
    {
      if pageDirectory[l1] == null {
        table := CreateTable(l1);
        forall c: Cell ensures c.page in pages && c.offset < PAGE_SIZE ==> pages[c.page][c.offset] == old(pages[c.page][c.offset]) {
          assert c.page in pages && c.offset < PAGE_SIZE ==> pages[c.page][..][c.offset] == old(pages[c.page][..][c.offset]);
        }
      } else {
        table := pageDirectory[l1];
      }
    }

    /** Puts a new page in its slot. */
    method Install(p: PageId, table: array<array?<T>>, page: array<T>)
      requires ValidLayout() && p.l1 in tables && table == tables[p.l1] && p.l2 < L2_ENTRIES
      requires p !in pages && page !in Repr && page.Length == PAGE_SIZE
      modifies this`pages, this`home, this`Repr, table
      ensures pages == old(pages)[p := page] && Repr == old(Repr) + {page}
      ensures forall k :: k in old(pages) ==> pages[k][..] == old(pages[k][..])
      ensures ValidLayout()
    {
      table[p.l2] := page;
      pages := pages[p := page];
      Repr := Repr + {page};
      home := home[page := p];
    }

    /** A new zero-filled page. */
    method CreatePage(p: PageId, table: array<array?<T>>) returns (page: array<T>)
      requires Valid() && p.l1 in tables && table == tables[p.l1] && p.l2 < L2_ENTRIES && p !in pages
      modifies this`pages, this`home, this`contents, this`Repr, table
      ensures Valid() && fresh(page) && Repr == old(Repr) + {page}
      ensures pages == old(pages)[p := page] && page.Length == PAGE_SIZE
      ensures contents == Created(old(contents), p, zero)
    {
      page := new T[PAGE_SIZE](_ => zero);
      Install(p, table, page);
      forall c: Cell | c.page in old(pages) && c.offset < PAGE_SIZE
        ensures pages[c.page][c.offset] == old(pages[c.page][c.offset])
      {
        assert pages[c.page][..][c.offset] == old(pages[c.page][..][c.offset]);
      }
      contents := Created(contents, p, zero);
    }

    /** The page of a table in slot `p.l2`, created if absent. */
    method GetOrCreatePage(p: PageId, table: array<array?<T>>) returns (page: array<T>)
      requires Valid() && p.l1 in tables && table == tables[p.l1] && p.l2 < L2_ENTRIES
      modifies Repr
      ensures Valid() && fresh(Repr - old(Repr))
      ensures p in pages && page == pages[p] && page.Length == PAGE_SIZE
      ensures contents == Created(old(contents), p, zero)
      ensures forall k :: k in old(pages) ==> k in pages && pages[k] == old(pages)[k]
    {
      if table[p.l2] == null {
        page := CreatePage(p, table);
      } else {
        page := table[p.l2];
        contents := Created(contents, p, zero);
      }
    }

    /** The page of address `a`, created if absent. */
    method GetOrCreateShadowBaseAddress(a: nat) returns (page: array<T>)
      requires Valid()
      modifies Repr
      ensures Valid() && fresh(Repr - old(Repr))
      ensures PageOf(a) in pages && page == pages[PageOf(a)] && page.Length == PAGE_SIZE
      ensures contents == Created(old(contents), PageOf(a), zero)
      ensures forall k :: k in old(pages) ==> k in pages && pages[k] == old(pages)[k]
    {
      var table := GetOrCreateTable(L1Slot(a));
      page := GetOrCreatePage(PageId(L1Slot(a), L2Slot(a)), table);
    }

    /** The cell of address `a`, created if absent, as a page and an index into it. */
    method GetOrCreateShadowAddress(a: nat) returns (page: array<T>, index: nat)
      requires Valid()
      modifies Repr
      ensures Valid() && fresh(Repr - old(Repr))
      ensures Points(page, index, CellOf(a))
      ensures contents == Created(old(contents), PageOf(a), zero)
      ensures forall k :: k in old(pages) ==> k in pages && pages[k] == old(pages)[k]
    {
      page := GetOrCreateShadowBaseAddress(a);
      index := Offset(a);
    }

    method GetShadowBaseAddress(a: nat) returns (page: array?<T>)
      requires Valid()
      ensures page == if PageOf(a) in pages then pages[PageOf(a)] else null
    {
      if pageDirectory[L1Slot(a)] == null {
        return null;
      }
      page := pageDirectory[L1Slot(a)][L2Slot(a)];
    }

    /** The cell of address `a` if there is one; looking it up creates nothing. */
    method GetShadowAddress(a: nat) returns (page: array?<T>, index: nat)
      requires Valid()
      ensures page == null <==> At(contents, CellOf(a)).None?
      ensures page != null ==> Points(page, index, CellOf(a)) && At(contents, CellOf(a)) == Some(page[index])
    {
      page := GetShadowBaseAddress(a);
      index := Offset(a);
    }

    /** A store at offset `i` from the pointer to cell `c` changes one cell and no other. */
    method Store(ghost c: Cell, page: array<T>, index: nat, i: nat, v: T)
      requires Valid() && Points(page, index, c) && i < PAGE_SIZE - c.offset
      modifies this`contents, page
      ensures Valid() && Points(page, index, c)
      ensures contents == Stored(old(contents), Cell(c.page, c.offset + i), v)
    {
      page[index + i] := v;
      contents := Stored(contents, Cell(c.page, c.offset + i), v);
    }

    /** A load at offset `i` from the pointer to cell `c`. */
    method Load(ghost c: Cell, page: array<T>, index: nat, i: nat) returns (v: T)
      requires Valid() && Points(page, index, c) && i < PAGE_SIZE - c.offset
      ensures At(contents, Cell(c.page, c.offset + i)) == Some(v)
    {
      v := page[index + i];
    }

    /** A store through the pointer to cell `c` itself */
    method Put(ghost c: Cell, page: array<T>, index: nat, v: T)
      requires Valid() && Points(page, index, c)
      modifies this`contents, page
      ensures Valid() && Points(page, index, c)
      ensures contents == Stored(old(contents), c, v)
    {
      assert Cell(c.page, c.offset + 0) == c;
      Store(c, page, index, 0, v);
    }

    /** A load through the pointer to cell `c` itself */
    method Get(ghost c: Cell, page: array<T>, index: nat) returns (v: T)
      requires Valid() && Points(page, index, c)
      ensures At(contents, c) == Some(v)
    {
      assert Cell(c.page, c.offset + 0) == c;
      v := Load(c, page, index, 0);
    }
  }
}

/** One pass over the shadow nodes of consecutive bytes, as the profilers unroll it. */
module ShadowNodes {
  import opened Options
  import opened ShadowSlots
  import opened ShadowMemory
  import opened PairCounts

  /** `mem_node_t` of the load profiler: the context that read the byte last, and what it read */
  datatype Node = Node(ctxt: Handle, value: nat)

  const ZERO := Node(0, 0)

  ghost function NodeAt(m: Flat<Node>, c: Cell): Node { OrZero(m, c, ZERO) }

  /** What a pass does to each node: copy the values read, or set the context. */
  datatype Change = Values(val: seq<nat>) | Context(cur: Handle)

  function Changed(ch: Change, j: nat, n: Node): Node {
    match ch
    case Values(val) => if j < |val| then n.(value := val[j]) else n
    case Context(cur) => n.(ctxt := cur)
  }

  /** The memory when a pass comes to cell `c`: the straddling passes look each page up again,
      the others stay on the page they have. */
  ghost function Reach(m: Flat<Node>, c: Cell, far: bool): Flat<Node> {
    if far then Created(m, c.page, ZERO) else m
  }

  /** Step `j` of a pass from address `a` on */
  ghost function Step(m: Flat<Node>, a: nat, ch: Change, j: nat, far: bool): Flat<Node> {
    var m' := Reach(m, ByteCell(a, j), far);
    Stored(m', ByteCell(a, j), Changed(ch, j, NodeAt(m', ByteCell(a, j))))
  }

  /** The first `k` steps; from step `from` on, the page is looked up again. */
  ghost function Pass(m: Flat<Node>, a: nat, ch: Change, k: nat, from: nat): Flat<Node> {
    if k == 0 then m else Step(Pass(m, a, ch, k - 1, from), a, ch, k - 1, from < k)
  }

  /** A cell the pass has not reached: at most its page was created. */
  lemma {:induction false} PassElsewhere(m: Flat<Node>, a: nat, ch: Change, k: nat, from: nat, c: Cell)
    requires !Touches(a, k, c)
    ensures At(Pass(m, a, ch, k, from), c) ==
            if At(m, c).None? && TouchesPage(a, from, k, c.page) && c.offset < PAGE_SIZE then Some(ZERO) else At(m, c)
  {
    if k > 0 {
      TouchesLast(a, from, k, c);
      PassElsewhere(m, a, ch, k - 1, from, c);
    }
  }

  /** A cell the pass has reached was changed once. */
  lemma {:induction false} PassThere(m: Flat<Node>, a: nat, ch: Change, k: nat, from: nat, j: nat)
    requires j < k <= SPAN
    ensures At(Pass(m, a, ch, k, from), ByteCell(a, j)) == Some(Changed(ch, j, NodeAt(m, ByteCell(a, j))))
  {
    var c := ByteCell(a, j);
    if j == k - 1 {
      NotBefore(a, j);
      PassElsewhere(m, a, ch, k - 1, from, c);
    } else {
      PassThere(m, a, ch, k - 1, from, j);
      if ByteCell(a, k - 1) == c {
        DistinctCells(a, k - 1, j);
      }
    }
  }

  /** Up to the end of its page, the pointer to the cell of `a` moves along with the address. */
  lemma BytesOnPage(a: nat, n: nat)
    requires n <= PAGE_SIZE - Offset(a)
    ensures forall i: nat :: i < n ==> ByteCell(a, i) == Cell(CellOf(a).page, CellOf(a).offset + i)
  {
    forall i: nat | i < n ensures ByteCell(a, i) == Cell(CellOf(a).page, CellOf(a).offset + i) {
      PageIsContiguous(a, i);
    }
  }

  /** One step through the pointer to the cell of `a`: a field of the node at offset `i` is set.
      `was` is the node before. */
  method SetNode(shadow: ShadowMemory<Node>, page: array<Node>, index: nat, ghost a: nat, i: nat, ch: Change) returns (was: Node)
    requires shadow.Valid() && shadow.Points(page, index, CellOf(a)) && i < PAGE_SIZE - Offset(a)
    modifies shadow`contents, page
    ensures shadow.Valid() && shadow.Points(page, index, CellOf(a))
    ensures shadow.contents == Step(old(shadow.contents), a, ch, i, false)
    ensures was == NodeAt(old(shadow.contents), ByteCell(a, i))
  {
    ghost var c := CellOf(a);
    PageIsContiguous(a, i);
    assert ByteCell(a, i) == Cell(c.page, c.offset + i);
    was := shadow.Load(c, page, index, i);
    shadow.Store(c, page, index, i, Changed(ch, i, was));
  }

  /** One step that looks the page up again. */
  method SetNodeFar(shadow: ShadowMemory<Node>, a: nat, i: nat, ch: Change) returns (was: Node)
    requires shadow.Valid() && shadow.zero == ZERO
    modifies shadow.Repr
    ensures shadow.Valid() && fresh(shadow.Repr - old(shadow.Repr))
    ensures shadow.contents == Step(old(shadow.contents), a, ch, i, true)
    ensures forall k :: k in old(shadow.pages) ==> k in shadow.pages && shadow.pages[k] == old(shadow.pages)[k]
    ensures was == NodeAt(old(shadow.contents), ByteCell(a, i))
  {
    ghost var c := ByteCell(a, i);
    var page, index := shadow.GetOrCreateShadowAddress(a + i);
    was := shadow.Get(c, page, index);
    shadow.Put(c, page, index, Changed(ch, i, was));
  }

  /** A node through the pointer to the cell of `a` */
  method GetNode(shadow: ShadowMemory<Node>, page: array<Node>, index: nat, ghost a: nat, i: nat) returns (node: Node)
    requires shadow.Valid() && shadow.Points(page, index, CellOf(a)) && i < PAGE_SIZE - Offset(a)
    ensures At(shadow.contents, ByteCell(a, i)) == Some(node)
  {
    node := shadow.Load(CellOf(a), page, index, i);
    PageIsContiguous(a, i);
  }

  /** A node, its page looked up again */
  method GetNodeFar(shadow: ShadowMemory<Node>, a: nat, i: nat) returns (node: Node)
    requires shadow.Valid() && shadow.zero == ZERO
    modifies shadow.Repr
    ensures shadow.Valid() && fresh(shadow.Repr - old(shadow.Repr))
    ensures shadow.contents == Created(old(shadow.contents), ByteCell(a, i).page, ZERO)
    ensures forall k :: k in old(shadow.pages) ==> k in shadow.pages && shadow.pages[k] == old(shadow.pages)[k]
    ensures node == NodeAt(old(shadow.contents), ByteCell(a, i))
  {
    ghost var c := ByteCell(a, i);
    var page, index := shadow.GetOrCreateShadowAddress(a + i);
    node := shadow.Get(c, page, index);
  }
}

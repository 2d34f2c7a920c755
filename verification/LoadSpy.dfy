/** Redundant loads: a load is redundant when every byte has the value it was last read with.
    The profiler takes short cuts for loads within one page; all of them count what handling each
    byte by itself would count. */
module LoadSpy {
  import opened Options
  import opened Arithmetic
  import opened ShadowSlots
  import opened ShadowMemory
  import opened ShadowNodes
  import opened PairCounts

  /** Every byte has the value it was last read with. */
  ghost predicate Redundant(m: Flat<Node>, a: nat, val: seq<nat>) {
    forall i :: 0 <= i < |val| ==> NodeAt(m, ByteCell(a, i)).value == val[i]
  }

  ghost function KeyOf(m: Flat<Node>, a: nat, i: nat, cur: Handle): nat {
    MakePair(NodeAt(m, ByteCell(a, i)).ctxt, cur)
  }

  /** Handling each of the first `k` bytes by itself: one more for the pair of contexts of each. */
  ghost function AddBytes(red: Table, m: Flat<Node>, a: nat, cur: Handle, k: nat): Table {
    if k == 0 then red else Add(AddBytes(red, m, a, cur, k - 1), KeyOf(m, a, k - 1, cur), 1)
  }

  /** The memory after a load by `cur`, byte by byte: new value and new context for the bytes
      loaded, zero-filled pages for the rest of pages not seen before, and no other change. */
  ghost predicate Loaded(now: Flat<Node>, m: Flat<Node>, a: nat, val: seq<nat>, cur: Handle) {
    && (forall j :: 0 <= j < |val| ==> At(now, ByteCell(a, j)) == Some(Node(cur, val[j])))
    && (forall c: Cell :: !Touches(a, |val|, c) ==>
          At(now, c) == if At(m, c).None? && TouchesPage(a, 0, |val|, c.page) && c.offset < PAGE_SIZE then Some(ZERO) else At(m, c))
  }

  // ----- the short cuts agree -------------------------------------------------------

  ghost predicate SameContext(m: Flat<Node>, a: nat, k: nat) {
    forall i: nat :: i < k ==> NodeAt(m, ByteCell(a, i)).ctxt == NodeAt(m, ByteCell(a, 0)).ctxt
  }

  /** If all bytes have the same context, one addition of `k` does for all of them. */
  lemma {:induction false} OneContext(red: Table, m: Flat<Node>, a: nat, cur: Handle, k: nat)
    requires 0 < k && SameContext(m, a, k)
    ensures AddBytes(red, m, a, cur, k) == Add(red, KeyOf(m, a, 0, cur), k)
  {
    if k > 1 {
      OneContext(red, m, a, cur, k - 1);
      AddTwice(red, KeyOf(m, a, 0, cur), k - 1, 1);
      assert k - 1 + 1 == k;
    } else {
      assert AddBytes(red, m, a, cur, 0) == red;
    }
  }

  /** The counts depend on the contexts of the bytes only. */
  lemma {:induction false} AddBytesSame(red: Table, m: Flat<Node>, m': Flat<Node>, a: nat, cur: Handle, k: nat)
    requires forall i: nat :: i < k ==> NodeAt(m, ByteCell(a, i)).ctxt == NodeAt(m', ByteCell(a, i)).ctxt
    ensures AddBytes(red, m, a, cur, k) == AddBytes(red, m', a, cur, k)
  {
    if k > 0 {
      AddBytesSame(red, m, m', a, cur, k - 1);
      assert NodeAt(m, ByteCell(a, k - 1)).ctxt == NodeAt(m', ByteCell(a, k - 1)).ctxt;
    }
  }

  /** `m` is `m0` with pages of the range created: all of them, or with `far` perhaps not all. */
  ghost predicate SomePages(m: Flat<Node>, m0: Flat<Node>, a: nat, n: nat, far: bool) {
    && (forall c: Cell :: At(m, c) == At(m0, c) || (At(m0, c).None? && At(m, c) == Some(ZERO) && TouchesPage(a, 0, n, c.page) && c.offset < PAGE_SIZE))
    && (!far ==> forall c: Cell :: At(m, c).None? ==> !(TouchesPage(a, 0, n, c.page) && c.offset < PAGE_SIZE))
  }

  /** Two passes -- values, then contexts -- make the memory after the load, whether they stay on
      one page (`from` and `from'` at the end) or look up every page. */
  lemma TwoPasses(m0: Flat<Node>, m: Flat<Node>, a: nat, val: seq<nat>, cur: Handle, from: nat, from': nat)
    requires |val| <= SPAN && SomePages(m, m0, a, |val|, from == 0)
    ensures Loaded(Pass(Pass(m, a, Values(val), |val|, from), a, Context(cur), |val|, from'), m0, a, val, cur)
  {
    var n := |val|;
    var copied := Pass(m, a, Values(val), n, from);
    var now := Pass(copied, a, Context(cur), n, from');
    forall j | 0 <= j < n ensures At(now, ByteCell(a, j)) == Some(Node(cur, val[j])) {
      PassThere(m, a, Values(val), n, from, j);
      PassThere(copied, a, Context(cur), n, from', j);
    }
    forall c: Cell | !Touches(a, n, c)
      ensures At(now, c) == if At(m0, c).None? && TouchesPage(a, 0, n, c.page) && c.offset < PAGE_SIZE then Some(ZERO) else At(m0, c)
    {
      PassElsewhere(m, a, Values(val), n, from, c);
      PassElsewhere(copied, a, Context(cur), n, from', c);
    }
  }

  /** The pass that copies values leaves contexts alone, and one that has not come to a byte
      leaves its node alone. */
  lemma PassKeepsContexts(m: Flat<Node>, a: nat, val: seq<nat>, from: nat)
    requires |val| <= SPAN
    ensures forall i: nat :: i < |val| ==>
              NodeAt(Pass(m, a, Values(val), |val|, from), ByteCell(a, i)).ctxt == NodeAt(m, ByteCell(a, i)).ctxt
  {
    forall i: nat | i < |val|
      ensures NodeAt(Pass(m, a, Values(val), |val|, from), ByteCell(a, i)).ctxt == NodeAt(m, ByteCell(a, i)).ctxt
    {
      PassThere(m, a, Values(val), |val|, from, i);
    }
  }

  lemma PassNotThereYet(m: Flat<Node>, a: nat, ch: Change, j: nat, from: nat)
    requires j < SPAN
    ensures NodeAt(Pass(m, a, ch, j, from), ByteCell(a, j)) == NodeAt(m, ByteCell(a, j))
  {
    NotBefore(a, j);
    PassElsewhere(m, a, ch, j, from, ByteCell(a, j));
  }

  // ----- the profiler ---------------------------------------------------------------

  /** `per_thread_t`: bytes loaded, and redundant bytes per pair of contexts, apart for floating
      point operands */
  class PerThread {
    var bytesLoad: nat
    var redMap: Table
    var approxRedMap: Table

    function Red(approx: bool): Table
      reads this
    {
      if approx then approxRedMap else redMap
    }

    /** `AddToRedTable` and `AddToApproximateRedTable` */
    method AddTo(approx: bool, key: nat, value: nat)
      modifies `redMap, `approxRedMap
      ensures Red(approx) == Add(old(Red(approx)), key, value) && Red(!approx) == old(Red(!approx))
    {
      var m := Red(approx);
      if key !in m {
        m := m[key := value];
      } else {
        m := m[key := m[key] + value];
      }
      if approx {
        approxRedMap := m;
      } else {
        redMap := m;
      }
    }
  }

  /** The unrolled comparison on one page */
  method BodyIsRed(shadow: ShadowMemory<Node>, page: array<Node>, index: nat, ghost a: nat, val: seq<nat>) returns (isRed: bool)
    requires shadow.Valid() && shadow.Points(page, index, CellOf(a)) && |val| <= PAGE_SIZE - Offset(a)
    ensures isRed == Redundant(shadow.contents, a, val)
  {
    var i := 0;
    while i < |val|
      invariant i <= |val|
      invariant forall j: nat :: j < i ==> NodeAt(shadow.contents, ByteCell(a, j)).value == val[j]
    {
      var node := GetNode(shadow, page, index, a, i);
      if node.value != val[i] {
        return false;
      }
      i := i + 1;
    }
    return true;
  }

  /** The unrolled copy on one page */
  method BodyCopy(shadow: ShadowMemory<Node>, page: array<Node>, index: nat, ghost a: nat, val: seq<nat>)
    requires shadow.Valid() && shadow.Points(page, index, CellOf(a)) && |val| <= PAGE_SIZE - Offset(a)
    modifies shadow`contents, page
    ensures shadow.Valid() && shadow.Points(page, index, CellOf(a))
    ensures shadow.contents == Pass(old(shadow.contents), a, Values(val), |val|, |val|)
  {
    var i := 0;
    while i < |val|
      invariant i <= |val|
      invariant shadow.Valid() && shadow.Points(page, index, CellOf(a))
      invariant shadow.contents == Pass(old(shadow.contents), a, Values(val), i, |val|)
    {
      var _ := SetNode(shadow, page, index, a, i, Values(val));
      i := i + 1;
    }
  }

  /** `BodyContextCheck` */
  method BodyContextCheck(shadow: ShadowMemory<Node>, page: array<Node>, index: nat, ghost a: nat, n: nat) returns (same: bool)
    requires shadow.Valid() && shadow.Points(page, index, CellOf(a)) && 0 < n <= PAGE_SIZE - Offset(a)
    ensures same == SameContext(shadow.contents, a, n)
  {
    var first := GetNode(shadow, page, index, a, 0);
    var i := 0;
    while i < n
      invariant i <= n
      invariant forall j: nat :: j < i ==> NodeAt(shadow.contents, ByteCell(a, j)).ctxt == first.ctxt
    {
      var node := GetNode(shadow, page, index, a, i);
      if first.ctxt != node.ctxt {
        return false;
      }
      i := i + 1;
    }
    return true;
  }

  /** Counts one byte: what the unrolled bodies report for it. */
  method CountByte(pt: PerThread, approx: bool, ctxt: Handle, cur: Handle, ghost red: Table, ghost m: Flat<Node>, ghost a: nat, ghost i: nat)
    requires pt.Red(approx) == AddBytes(red, m, a, cur, i) && ctxt == NodeAt(m, ByteCell(a, i)).ctxt
    modifies pt`redMap, pt`approxRedMap
    ensures pt.Red(approx) == AddBytes(red, m, a, cur, i + 1) && pt.Red(!approx) == old(pt.Red(!approx))
  {
    pt.AddTo(approx, MakePair(ctxt, cur), 1);
  }

  /** One unrolled step of `BodySamePage` */
  method SamePageStep(shadow: ShadowMemory<Node>, page: array<Node>, index: nat, ghost a: nat, i: nat, cur: Handle,
                      conditional: bool, approx: bool, pt: PerThread, ghost m: Flat<Node>, ghost red: Table, ghost n: nat)
    requires shadow.Valid() && shadow.Points(page, index, CellOf(a)) && i < n <= PAGE_SIZE - Offset(a) && pt !in shadow.Repr
    requires shadow.contents == Pass(m, a, Context(cur), i, n)
    requires pt.Red(approx) == if conditional then AddBytes(red, m, a, cur, i) else red
    modifies shadow`contents, page, pt`redMap, pt`approxRedMap
    ensures shadow.Valid() && shadow.Points(page, index, CellOf(a))
    ensures shadow.contents == Pass(m, a, Context(cur), i + 1, n)
    ensures pt.Red(approx) == if conditional then AddBytes(red, m, a, cur, i + 1) else red
    ensures pt.Red(!approx) == old(pt.Red(!approx))
  {
    PassNotThereYet(m, a, Context(cur), i, n);
    var was := SetNode(shadow, page, index, a, i, Context(cur));
    if conditional {
      CountByte(pt, approx, was.ctxt, cur, red, m, a, i);
    }
  }

  /** `BodySamePage`: sets the contexts, and counts each byte if `conditional` */
  method BodySamePage(shadow: ShadowMemory<Node>, page: array<Node>, index: nat, ghost a: nat, n: nat, cur: Handle,
                      conditional: bool, approx: bool, pt: PerThread)
    requires shadow.Valid() && shadow.Points(page, index, CellOf(a)) && n <= PAGE_SIZE - Offset(a) && pt !in shadow.Repr
    modifies shadow`contents, page, pt`redMap, pt`approxRedMap
    ensures shadow.Valid()
    ensures shadow.contents == Pass(old(shadow.contents), a, Context(cur), n, n)
    ensures pt.Red(approx) == if conditional then AddBytes(old(pt.Red(approx)), old(shadow.contents), a, cur, n) else old(pt.Red(approx))
    ensures pt.Red(!approx) == old(pt.Red(!approx))
  {
    ghost var m, red, other := shadow.contents, pt.Red(approx), pt.Red(!approx);
    var i := 0;
    while i < n
      invariant i <= n
      invariant shadow.Valid() && shadow.Points(page, index, CellOf(a))
      invariant shadow.contents == Pass(m, a, Context(cur), i, n)
      invariant pt.Red(approx) == (if conditional then AddBytes(red, m, a, cur, i) else red) && pt.Red(!approx) == other
    {
      SamePageStep(shadow, page, index, a, i, cur, conditional, approx, pt, m, red, n);
      i := i + 1;
    }
  }

  /** Looks at one more byte of a straddling load. */
  method LookFar(shadow: ShadowMemory<Node>, a: nat, i: nat, ghost m: Flat<Node>, ghost n: nat) returns (node: Node)
    requires shadow.Valid() && shadow.zero == ZERO && SomePages(shadow.contents, m, a, n, true) && i < n
    modifies shadow.Repr
    ensures shadow.Valid() && fresh(shadow.Repr - old(shadow.Repr))
    ensures SomePages(shadow.contents, m, a, n, true) && node == NodeAt(m, ByteCell(a, i))
    ensures forall k :: k in old(shadow.pages) ==> k in shadow.pages && shadow.pages[k] == old(shadow.pages)[k]
  {
    MorePages(shadow.contents, m, a, n, i);
    node := GetNodeFar(shadow, a, i);
  }

  /** The unrolled comparison over a page boundary; it stops at the first difference. */
  method BodyStraddleIsRed(shadow: ShadowMemory<Node>, a: nat, val: seq<nat>) returns (isRed: bool)
    requires shadow.Valid() && shadow.zero == ZERO
    modifies shadow.Repr
    ensures shadow.Valid() && fresh(shadow.Repr - old(shadow.Repr))
    ensures SomePages(shadow.contents, old(shadow.contents), a, |val|, true)
    ensures forall k :: k in old(shadow.pages) ==> k in shadow.pages && shadow.pages[k] == old(shadow.pages)[k]
    ensures isRed == Redundant(old(shadow.contents), a, val)
  {
    ghost var m := shadow.contents;
    isRed := true;
    var i := 0;
    while i < |val| && isRed
      invariant i <= |val|
      invariant shadow.Valid() && fresh(shadow.Repr - old(shadow.Repr))
      invariant SomePages(shadow.contents, m, a, |val|, true)
      invariant forall k :: k in old(shadow.pages) ==> k in shadow.pages && shadow.pages[k] == old(shadow.pages)[k]
      invariant isRed == Redundant(m, a, val[..i])
    {
      var node := LookFar(shadow, a, i, m, |val|);
      RedundantNext(m, a, val, i);
      isRed := node.value == val[i];
      i := i + 1;
    }
    RedundantPrefix(m, a, val, i);
  }

  lemma RedundantNext(m: Flat<Node>, a: nat, val: seq<nat>, i: nat)
    requires i < |val|
    ensures Redundant(m, a, val[..i + 1]) <==> Redundant(m, a, val[..i]) && NodeAt(m, ByteCell(a, i)).value == val[i]
  {
    if Redundant(m, a, val[..i + 1]) {
      assert val[..i + 1][i] == val[i];
      assert forall j :: 0 <= j < i ==> val[..i][j] == val[..i + 1][j];
    }
  }

  /** A prefix with a difference in it decides; the whole does too. */
  lemma RedundantPrefix(m: Flat<Node>, a: nat, val: seq<nat>, i: nat)
    requires i <= |val| && (Redundant(m, a, val[..i]) ==> i == |val|)
    ensures Redundant(m, a, val) <==> Redundant(m, a, val[..i])
  {
    assert val[..|val|] == val;
    if Redundant(m, a, val) {
      assert forall j :: 0 <= j < i ==> val[..i][j] == val[j];
    }
  }

  /** Looking up one more byte creates at most a page of the range; no node changes. */
  lemma MorePages(m: Flat<Node>, m0: Flat<Node>, a: nat, n: nat, i: nat)
    requires SomePages(m, m0, a, n, true) && i < n
    ensures SomePages(Created(m, ByteCell(a, i).page, ZERO), m0, a, n, true)
    ensures NodeAt(m, ByteCell(a, i)) == NodeAt(m0, ByteCell(a, i))
  {
    assert TouchesPage(a, 0, n, ByteCell(a, i).page);
  }

  /** The unrolled copy over a page boundary */
  method BodyStraddleCopy(shadow: ShadowMemory<Node>, a: nat, val: seq<nat>)
    requires shadow.Valid() && shadow.zero == ZERO
    modifies shadow.Repr
    ensures shadow.Valid() && fresh(shadow.Repr - old(shadow.Repr))
    ensures shadow.contents == Pass(old(shadow.contents), a, Values(val), |val|, 0)
    ensures forall k :: k in old(shadow.pages) ==> k in shadow.pages && shadow.pages[k] == old(shadow.pages)[k]
  {
    var i := 0;
    while i < |val|
      invariant i <= |val|
      invariant shadow.Valid() && fresh(shadow.Repr - old(shadow.Repr))
      invariant shadow.contents == Pass(old(shadow.contents), a, Values(val), i, 0)
      invariant forall k :: k in old(shadow.pages) ==> k in shadow.pages && shadow.pages[k] == old(shadow.pages)[k]
    {
      var _ := SetNodeFar(shadow, a, i, Values(val));
      i := i + 1;
    }
  }

  /** One unrolled step of `BodyStraddlePage` */
  method StraddleStep(shadow: ShadowMemory<Node>, a: nat, i: nat, cur: Handle,
                      conditional: bool, approx: bool, pt: PerThread, ghost m: Flat<Node>, ghost red: Table)
    requires shadow.Valid() && shadow.zero == ZERO && pt !in shadow.Repr && 1 <= i < SPAN
    requires shadow.contents == Pass(m, a, Context(cur), i, 1)
    requires pt.Red(approx) == if conditional then AddBytes(red, m, a, cur, i) else red
    modifies shadow.Repr, pt`redMap, pt`approxRedMap
    ensures shadow.Valid() && fresh(shadow.Repr - old(shadow.Repr))
    ensures shadow.contents == Pass(m, a, Context(cur), i + 1, 1)
    ensures pt.Red(approx) == if conditional then AddBytes(red, m, a, cur, i + 1) else red
    ensures pt.Red(!approx) == old(pt.Red(!approx))
  {
    PassNotThereYet(m, a, Context(cur), i, 1);
    var was := SetNodeFar(shadow, a, i, Context(cur));
    if conditional {
      CountByte(pt, approx, was.ctxt, cur, red, m, a, i);
    }
  }

  /** `BodyStraddlePage`, from byte `start` on */
  method BodyStraddlePage(shadow: ShadowMemory<Node>, a: nat, start: nat, n: nat, cur: Handle,
                          conditional: bool, approx: bool, pt: PerThread, ghost m: Flat<Node>, ghost red: Table)
    requires shadow.Valid() && shadow.zero == ZERO && pt !in shadow.Repr && 1 <= start <= n <= SPAN
    requires shadow.contents == Pass(m, a, Context(cur), start, 1)
    requires pt.Red(approx) == if conditional then AddBytes(red, m, a, cur, start) else red
    modifies shadow.Repr, pt`redMap, pt`approxRedMap
    ensures shadow.Valid() && fresh(shadow.Repr - old(shadow.Repr))
    ensures shadow.contents == Pass(m, a, Context(cur), n, 1)
    ensures pt.Red(approx) == if conditional then AddBytes(red, m, a, cur, n) else red
    ensures pt.Red(!approx) == old(pt.Red(!approx))
  {
    var i := start;
    while i < n
      invariant start <= i <= n
      invariant shadow.Valid() && fresh(shadow.Repr - old(shadow.Repr)) && pt !in shadow.Repr
      invariant shadow.contents == Pass(m, a, Context(cur), i, 1)
      invariant pt.Red(approx) == if conditional then AddBytes(red, m, a, cur, i) else red
      invariant pt.Red(!approx) == old(pt.Red(!approx))
    {
      StraddleStep(shadow, a, i, cur, conditional, approx, pt, m, red);
      i := i + 1;
    }
  }

  /** A page that was just looked up is there for all bytes on it. */
  lemma OnePage(m: Flat<Node>, a: nat, n: nat)
    requires 0 < n <= PAGE_SIZE - Offset(a)
    ensures SomePages(Created(m, PageOf(a), ZERO), m, a, n, false)
  {
    BytesOnPage(a, n);
    assert ByteCell(a, 0).page == PageOf(a);
    assert forall p :: TouchesPage(a, 0, n, p) <==> p == PageOf(a);
  }

  lemma FirstPage(m: Flat<Node>, a: nat, n: nat)
    requires 0 < n
    ensures SomePages(Created(m, PageOf(a), ZERO), m, a, n, true)
  {
    assert ByteCell(a, 0).page == PageOf(a);
    assert TouchesPage(a, 0, n, PageOf(a));
  }

  /** The counts, taken after values were copied and pages created, are those before the load. */
  lemma CountsBefore(red: Table, m0: Flat<Node>, m: Flat<Node>, a: nat, val: seq<nat>, cur: Handle, from: nat)
    requires |val| <= SPAN && SomePages(m, m0, a, |val|, from == 0)
    ensures AddBytes(red, Pass(m, a, Values(val), |val|, from), a, cur, |val|) == AddBytes(red, m0, a, cur, |val|)
  {
    PassKeepsContexts(m, a, val, from);
    AddBytesSame(red, Pass(m, a, Values(val), |val|, from), m, a, cur, |val|);
    AddBytesSame(red, m, m0, a, cur, |val|);
  }

  lemma RedundantBefore(m0: Flat<Node>, m: Flat<Node>, a: nat, val: seq<nat>, far: bool)
    requires SomePages(m, m0, a, |val|, far)
    ensures Redundant(m, a, val) <==> Redundant(m0, a, val)
  {
    assert forall c: Cell :: NodeAt(m, c) == NodeAt(m0, c);
  }

  /** A redundant load within a page: one addition if all bytes have one context, else one per
      byte; the counts are the same. */
  method CountSamePage(shadow: ShadowMemory<Node>, page: array<Node>, index: nat, ghost a: nat, n: nat, cur: Handle,
                       approx: bool, pt: PerThread)
    requires shadow.Valid() && shadow.Points(page, index, CellOf(a)) && 0 < n <= PAGE_SIZE - Offset(a) && pt !in shadow.Repr
    modifies shadow`contents, page, pt`redMap, pt`approxRedMap
    ensures shadow.Valid()
    ensures shadow.contents == Pass(old(shadow.contents), a, Context(cur), n, n)
    ensures pt.Red(approx) == AddBytes(old(pt.Red(approx)), old(shadow.contents), a, cur, n)
    ensures pt.Red(!approx) == old(pt.Red(!approx))
  {
    var same := BodyContextCheck(shadow, page, index, a, n);
    if same {
      var first := GetNode(shadow, page, index, a, 0);
      OneContext(pt.Red(approx), shadow.contents, a, cur, n);
      pt.AddTo(approx, MakePair(first.ctxt, cur), n);
      BodySamePage(shadow, page, index, a, n, cur, false, approx, pt);
    } else {
      BodySamePage(shadow, page, index, a, n, cur, true, approx, pt);
    }
  }

  /** What a load does: the memory byte by byte, and one count per byte if it is redundant. */
  ghost predicate CountsLoad(red: Table, wasRed: Table, m: Flat<Node>, a: nat, val: seq<nat>, cur: Handle) {
    red == if Redundant(m, a, val) then AddBytes(wasRed, m, a, cur, |val|) else wasRed
  }

  /** Comparison and copy on one page; `m` is the memory before the first lookup. */
  method CompareWithinPage(shadow: ShadowMemory<Node>, page: array<Node>, index: nat, ghost a: nat, val: seq<nat>, ghost m: Flat<Node>)
      returns (isRed: bool)
    requires shadow.Valid() && shadow.Points(page, index, CellOf(a))
    requires 0 < |val| <= PAGE_SIZE - Offset(a) && shadow.contents == Created(m, PageOf(a), ZERO)
    modifies shadow`contents, page
    ensures shadow.Valid() && shadow.Points(page, index, CellOf(a))
    ensures isRed == Redundant(m, a, val)
    ensures shadow.contents == Pass(Created(m, PageOf(a), ZERO), a, Values(val), |val|, |val|)
  {
    OnePage(m, a, |val|);
    RedundantBefore(m, Created(m, PageOf(a), ZERO), a, val, false);
    isRed := BodyIsRed(shadow, page, index, a, val);
    BodyCopy(shadow, page, index, a, val);
  }

  /** The branches for an access within one page */
  method CheckWithinPage(shadow: ShadowMemory<Node>, page: array<Node>, index: nat, ghost a: nat, val: seq<nat>, cur: Handle,
                         approx: bool, pt: PerThread, ghost m: Flat<Node>)
    requires shadow.Valid() && shadow.Points(page, index, CellOf(a)) && pt !in shadow.Repr
    requires 0 < |val| <= PAGE_SIZE - Offset(a) && shadow.contents == Created(m, PageOf(a), ZERO)
    modifies shadow`contents, page, pt`redMap, pt`approxRedMap
    ensures shadow.Valid()
    ensures Loaded(shadow.contents, m, a, val, cur)
    ensures CountsLoad(pt.Red(approx), old(pt.Red(approx)), m, a, val, cur)
    ensures pt.Red(!approx) == old(pt.Red(!approx))
  {
    ghost var n, created, red := |val|, shadow.contents, pt.Red(approx);
    OnePage(m, a, n);
    CountsBefore(red, m, created, a, val, cur, n);
    TwoPasses(m, created, a, val, cur, n, n);
    var isRed := CompareWithinPage(shadow, page, index, a, val, m);
    if isRed {
      CountSamePage(shadow, page, index, a, |val|, cur, approx, pt);
    } else {
      BodySamePage(shadow, page, index, a, |val|, cur, false, approx, pt);
    }
  }

  /** The passes that set contexts over a page boundary: the first byte through the pointer at
      hand, the others with a lookup each. */
  method ContextsStraddle(shadow: ShadowMemory<Node>, page: array<Node>, index: nat, a: nat, n: nat, cur: Handle,
                          isRed: bool, approx: bool, pt: PerThread)
    requires shadow.Valid() && shadow.zero == ZERO && shadow.Points(page, index, CellOf(a)) && pt !in shadow.Repr && 0 < n <= SPAN
    modifies shadow.Repr, pt`redMap, pt`approxRedMap
    ensures shadow.Valid() && fresh(shadow.Repr - old(shadow.Repr))
    ensures shadow.contents == Pass(old(shadow.contents), a, Context(cur), n, 1)
    ensures pt.Red(approx) == if isRed then AddBytes(old(pt.Red(approx)), old(shadow.contents), a, cur, n) else old(pt.Red(approx))
    ensures pt.Red(!approx) == old(pt.Red(!approx))
  {
    ghost var m, red := shadow.contents, pt.Red(approx);
    var was := SetNode(shadow, page, index, a, 0, Context(cur));
    assert shadow.contents == Pass(m, a, Context(cur), 1, 1);
    if isRed {
      CountByte(pt, approx, was.ctxt, cur, red, m, a, 0);
    }
    BodyStraddlePage(shadow, a, 1, n, cur, isRed, approx, pt, m, red);
  }

  /** Comparison and copy over a page boundary; `looked` is the memory between the two. */
  method CompareStraddle(shadow: ShadowMemory<Node>, a: nat, val: seq<nat>, ghost m: Flat<Node>)
      returns (isRed: bool, ghost looked: Flat<Node>)
    requires shadow.Valid() && shadow.zero == ZERO && 0 < |val|
    requires shadow.contents == Created(m, PageOf(a), ZERO)
    modifies shadow.Repr
    ensures shadow.Valid() && fresh(shadow.Repr - old(shadow.Repr))
    ensures forall k :: k in old(shadow.pages) ==> k in shadow.pages && shadow.pages[k] == old(shadow.pages)[k]
    ensures isRed == Redundant(m, a, val)
    ensures SomePages(looked, m, a, |val|, true) && shadow.contents == Pass(looked, a, Values(val), |val|, 0)
  {
    ghost var n, created := |val|, shadow.contents;
    FirstPage(m, a, n);
    RedundantBefore(m, created, a, val, true);
    isRed := BodyStraddleIsRed(shadow, a, val);
    looked := shadow.contents;
    MorePagesTwice(looked, created, m, a, n);
    BodyStraddleCopy(shadow, a, val);
  }

  /** The branches for an access over a page boundary */
  method CheckStraddle(shadow: ShadowMemory<Node>, page: array<Node>, index: nat, a: nat, val: seq<nat>, cur: Handle,
                       approx: bool, pt: PerThread, ghost m: Flat<Node>)
    requires shadow.Valid() && shadow.zero == ZERO && shadow.Points(page, index, CellOf(a)) && pt !in shadow.Repr
    requires 0 < |val| <= SPAN && shadow.contents == Created(m, PageOf(a), ZERO)
    modifies shadow.Repr, pt`redMap, pt`approxRedMap
    ensures shadow.Valid() && fresh(shadow.Repr - old(shadow.Repr))
    ensures Loaded(shadow.contents, m, a, val, cur)
    ensures CountsLoad(pt.Red(approx), old(pt.Red(approx)), m, a, val, cur)
    ensures pt.Red(!approx) == old(pt.Red(!approx))
  {
    ghost var red := pt.Red(approx);
    var isRed;
    ghost var looked;
    isRed, looked := CompareStraddle(shadow, a, val, m);
    CountsBefore(red, m, looked, a, val, cur, 0);
    TwoPasses(m, looked, a, val, cur, 0, 1);
    ContextsStraddle(shadow, page, index, a, |val|, cur, isRed, approx, pt);
  }

  lemma MorePagesTwice(m2: Flat<Node>, m1: Flat<Node>, m0: Flat<Node>, a: nat, n: nat)
    requires SomePages(m2, m1, a, n, true) && SomePages(m1, m0, a, n, true)
    ensures SomePages(m2, m0, a, n, true)
  {
  }

  /** `CheckNByteValueAfterRead`.  Its test for one page is stricter than it need be: an access that
      ends with the page takes the straddling branch, with the same result. */
  method CheckNByteValueAfterRead(shadow: ShadowMemory<Node>, a: nat, val: seq<nat>, cur: Handle, approx: bool, pt: PerThread)
    requires shadow.Valid() && shadow.zero == ZERO && pt !in shadow.Repr && 0 < |val| <= PAGE_OFFSET_MASK
    modifies shadow.Repr, pt`redMap, pt`approxRedMap
    ensures shadow.Valid() && fresh(shadow.Repr - old(shadow.Repr))
    ensures Loaded(shadow.contents, old(shadow.contents), a, val, cur)
    ensures CountsLoad(pt.Red(approx), old(pt.Red(approx)), old(shadow.contents), a, val, cur)
    ensures pt.Red(!approx) == old(pt.Red(!approx))
  {
    ghost var m := shadow.contents;
    var page, index := shadow.GetOrCreateShadowAddress(a);
    if WithinPage(a, |val|) {
      CheckWithinPage(shadow, page, index, a, val, cur, approx, pt, m);
    } else {
      CheckStraddle(shadow, page, index, a, val, cur, approx, pt, m);
    }
  }

  /** A memory operand as the callback gets it: `val` are its bytes, `esize` the size of an element */
  datatype Access = Access(a: nat, val: seq<nat>, esize: nat, cur: Handle, isRead: bool, isFloat: bool)

  /** The loads that are compared; others are only added to the bytes loaded. */
  predicate Compared(x: Access) {
    x.isRead && if x.isFloat then |x.val| in {4, 8} || (|x.val| in {16, 32, 64} && x.esize in {4, 8})
                else |x.val| in {1, 2, 4, 8, 16, 32, 64}
  }

  /** Floating point loads of one or two bytes are asserted not to occur; with assertions compiled out
      they would fall into the comparison of four bytes, which are not all there. */
  predicate Expected(x: Access) { !(x.isRead && x.isFloat && |x.val| in {1, 2}) }

  /** What a thread has after some accesses: shadow memory, the two tables, bytes loaded */
  datatype State = State(m: Flat<Node>, red: Table, approxRed: Table, bytes: nat) {
    function Red(approx: bool): Table { if approx then approxRed else red }
  }

  /** What an expected access does. */
  ghost predicate Does(x: Access, s: State, s': State) {
    && s'.bytes == s.bytes + (if x.isRead then |x.val| else 0)
    && s'.Red(!x.isFloat) == s.Red(!x.isFloat)
    && if Compared(x)
       then Loaded(s'.m, s.m, x.a, x.val, x.cur) && CountsLoad(s'.Red(x.isFloat), s.Red(x.isFloat), s.m, x.a, x.val, x.cur)
       else s'.m == s.m && s'.Red(x.isFloat) == s.Red(x.isFloat)
  }

  /** The dispatch of the callback on the size of a load and of its elements */
  method Dispatch(x: Access) returns (ok: bool, compare: bool)
    requires x.isRead
    ensures ok == Expected(x) && (ok ==> compare == Compared(x))
  {
    var size := |x.val|;
    ok, compare := true, false;
    if x.isFloat {
      if size == 1 || size == 2 {
        ok := false;
      } else if size == 4 || size == 8 {
        compare := true;
      } else if size == 16 || size == 32 || size == 64 {
        compare := x.esize == 4 || x.esize == 8;
      }
    } else {
      compare := size in {1, 2, 4, 8, 16, 32, 64};
    }
  }

  /** `trace_update_cb`; false for a load that is not expected. */
  method TraceUpdate(shadow: ShadowMemory<Node>, x: Access, pt: PerThread) returns (ok: bool)
    requires shadow.Valid() && shadow.zero == ZERO && pt !in shadow.Repr
    modifies shadow.Repr, pt
    ensures shadow.Valid() && fresh(shadow.Repr - old(shadow.Repr))
    ensures ok <==> !(x.isRead && x.isFloat && (|x.val| == 1 || |x.val| == 2))
    ensures ok ==> Does(x, old(State(shadow.contents, pt.redMap, pt.approxRedMap, pt.bytesLoad)),
                        State(shadow.contents, pt.redMap, pt.approxRedMap, pt.bytesLoad))
  {
    if !x.isRead {
      return true;
    }
    var compare;
    ok, compare := Dispatch(x);
    if ok {
      if compare {
        CheckNByteValueAfterRead(shadow, x.a, x.val, x.cur, x.isFloat, pt);
      }
      pt.bytesLoad := pt.bytesLoad + |x.val|;
    }
  }

  // ----- which loads are compared -----------------------------------------------------

  ghost predicate PowerUpTo64(size: nat) {
    exists n: nat :: n <= 6 && size == Pow2(n)
  }

  /** An integer load of a power of two of bytes up to 64 */
  ghost predicate WholeLoad(x: Access) { x.isRead && !x.isFloat && PowerUpTo64(|x.val|) }

  /** A floating point load of one element of 4 or 8 bytes, or of a vector of 16, 32 or 64 bytes of
      such elements */
  ghost predicate VectorLoad(x: Access) {
    x.isRead && x.isFloat && (|x.val| == 4 || |x.val| == 8
      || ((|x.val| == 16 || |x.val| == 32 || |x.val| == 64) && (x.esize == 4 || x.esize == 8)))
  }

  lemma PowersUpTo64(size: nat)
    ensures PowerUpTo64(size) <==> size in {1, 2, 4, 8, 16, 32, 64}
  {
    assert Pow2(0) == 1 && Pow2(1) == 2 && Pow2(2) == 4 && Pow2(3) == 8;
    assert Pow2(4) == 16 && Pow2(5) == 32 && Pow2(6) == 64;
    if PowerUpTo64(size) {
      var n: nat :| n <= 6 && size == Pow2(n);
      assert n in {0, 1, 2, 3, 4, 5, 6};
    }
  }

  /** The loads that count: whole integers and vectors of floating point numbers */
  ghost predicate IsCompared(x: Access) { WholeLoad(x) || VectorLoad(x) }

  lemma ComparedIs(x: Access)
    ensures Compared(x) <==> IsCompared(x)
  {
    PowersUpTo64(|x.val|);
  }

  /** After such a load, shadow memory holds its bytes and its context; after any other access both
      memory and tables are as before. */
  lemma LoadLeaves(x: Access, s: State, s': State)
    requires Does(x, s, s')
    ensures IsCompared(x) ==>
              forall i :: 0 <= i < |x.val| ==> NodeAt(s'.m, ByteCell(x.a, i)) == Node(x.cur, x.val[i])
    ensures !IsCompared(x) ==> s'.m == s.m && s'.red == s.red && s'.approxRed == s.approxRed
    ensures x.isFloat ==> s'.red == s.red
    ensures !x.isFloat ==> s'.approxRed == s.approxRed
  {
    ComparedIs(x);
    if Compared(x) {
      forall i | 0 <= i < |x.val| ensures NodeAt(s'.m, ByteCell(x.a, i)) == Node(x.cur, x.val[i]) {
        assert At(s'.m, ByteCell(x.a, i)) == Some(Node(x.cur, x.val[i]));
      }
    }
  }

  lemma {:induction false} AllByOne(red: Table, m: Flat<Node>, a: nat, cur: Handle, n: nat)
    requires forall i: nat :: i < n ==> NodeAt(m, ByteCell(a, i)).ctxt == cur
    ensures n > 0 ==> AddBytes(red, m, a, cur, n) == Add(red, MakePair(cur, cur), n)
  {
    if n > 0 {
      OneContext(red, m, a, cur, n);
    }
  }

  /** Repeating such a load at once counts all its bytes, in the table of its kind. */
  lemma RepeatCounts(x: Access, s: State, s1: State, s2: State)
    requires Does(x, s, s1) && Does(x, s1, s2)
    ensures WholeLoad(x) ==> s2.red == Add(s1.red, MakePair(x.cur, x.cur), |x.val|)
    ensures VectorLoad(x) ==> s2.approxRed == Add(s1.approxRed, MakePair(x.cur, x.cur), |x.val|)
  {
    LoadLeaves(x, s, s1);
    ComparedIs(x);
    if IsCompared(x) {
      AllByOne(s1.Red(x.isFloat), s1.m, x.a, x.cur, |x.val|);
    }
  }
}

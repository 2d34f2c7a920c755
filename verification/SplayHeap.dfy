/** The splay tree as the source runs it: nodes linked by pointers, relinked in place,
    with a dummy node that collects the two partial trees and a caller-supplied spare. */
module SplayHeap {
  import opened SplayTree

  class SplayNode {
    var key: int
    var payload: object?
    var left: SplayNode?
    var right: SplayNode?

    constructor ()
      ensures left == null && right == null && payload == null
    {
      key, payload, left, right := 0, null, null, null;
    }
  }

  ghost function Nodes(t: Tree<SplayNode>): set<SplayNode> {
    if t.Leaf? then {} else Nodes(t.left) + {t.id} + Nodes(t.right)
  }

  ghost function SpineNodes(sp: Spine<SplayNode>): set<SplayNode> {
    if sp.Empty? then {} else SpineNodes(sp.rest) + {sp.id} + Nodes(sp.side)
  }

  /** The nodes below `p` form exactly the tree `t`, without sharing. */
  ghost predicate Rep(p: SplayNode?, t: Tree<SplayNode>)
    reads Nodes(t)`key, Nodes(t)`left, Nodes(t)`right
  {
    match t
    case Leaf => p == null
    case Node(l, n, k, r) =>
      && p == n && n.key == k
      && n !in Nodes(l) && n !in Nodes(r) && Nodes(l) !! Nodes(r)
      && Rep(n.left, l) && Rep(n.right, r)
  }

  /** The node whose free pointer is the hole of the spine. */
  ghost function Last(sp: Spine<SplayNode>, dummy: SplayNode): SplayNode {
    if sp.Empty? then dummy else sp.id
  }

  ghost predicate RepLeft(sp: Spine<SplayNode>, dummy: SplayNode)
    reads {dummy}`right, SpineNodes(sp)`key, SpineNodes(sp)`left, SpineNodes(sp)`right
  {
    match sp
    case Empty => true
    case Link(rest, n, k, side) =>
      && n.key == k && n != dummy
      && n !in SpineNodes(rest) && n !in Nodes(side)
      && Nodes(side) !! SpineNodes(rest)
      && RepLeft(rest, dummy) && dummy !in SpineNodes(rest)
      && Last(rest, dummy).right == n && Rep(n.left, side)
  }

  ghost predicate RepRight(sp: Spine<SplayNode>, dummy: SplayNode)
    reads {dummy}`left, SpineNodes(sp)`key, SpineNodes(sp)`left, SpineNodes(sp)`right
  {
    match sp
    case Empty => true
    case Link(rest, n, k, side) =>
      && n.key == k && n != dummy
      && n !in SpineNodes(rest) && n !in Nodes(side)
      && Nodes(side) !! SpineNodes(rest)
      && RepRight(rest, dummy) && dummy !in SpineNodes(rest)
      && Last(rest, dummy).left == n && Rep(n.right, side)
  }

  /** Once the hole of the left spine is filled with `t`, the chain is one tree. */
  lemma {:induction false} CloseLeft(sp: Spine<SplayNode>, dummy: SplayNode, x: SplayNode?, t: Tree<SplayNode>)
    requires RepLeft(sp, dummy) && Rep(x, t) && Last(sp, dummy).right == x
    requires Nodes(t) !! SpineNodes(sp) && dummy !in Nodes(t) && dummy !in SpineNodes(sp)
    ensures Rep(dummy.right, JoinLeft(sp, t))
    ensures Nodes(JoinLeft(sp, t)) == SpineNodes(sp) + Nodes(t)
  {
    if sp.Link? {
      CloseLeft(sp.rest, dummy, sp.id, Node(sp.side, sp.id, sp.key, t));
    }
  }

  lemma {:induction false} CloseRight(sp: Spine<SplayNode>, dummy: SplayNode, x: SplayNode?, t: Tree<SplayNode>)
    requires RepRight(sp, dummy) && Rep(x, t) && Last(sp, dummy).left == x
    requires Nodes(t) !! SpineNodes(sp) && dummy !in Nodes(t) && dummy !in SpineNodes(sp)
    ensures Rep(dummy.left, JoinRight(sp, t))
    ensures Nodes(JoinRight(sp, t)) == SpineNodes(sp) + Nodes(t)
  {
    if sp.Link? {
      CloseRight(sp.rest, dummy, sp.id, Node(t, sp.id, sp.key, sp.side));
    }
  }

  lemma RotationKeepsNodes(t: Tree<SplayNode>)
    ensures t.Node? && t.left.Node? ==> Nodes(RotateRight(t)) == Nodes(t)
    ensures t.Node? && t.right.Node? ==> Nodes(RotateLeft(t)) == Nodes(t)
  {
    if t.Node? && t.left.Node? {
      var lowered := t.(left := t.left.right);
      assert Nodes(lowered) == Nodes(t.left.right) + {t.id} + Nodes(t.right);
      assert RotateRight(t) == t.left.(right := lowered);
    }
    if t.Node? && t.right.Node? {
      var lowered := t.(right := t.right.left);
      assert Nodes(lowered) == Nodes(t.left) + {t.id} + Nodes(t.right.left);
      assert RotateLeft(t) == t.right.(left := lowered);
    }
  }

  ghost function AllNodes(l: Spine<SplayNode>, m: Tree<SplayNode>, r: Spine<SplayNode>): set<SplayNode> {
    SpineNodes(l) + Nodes(m) + SpineNodes(r)
  }

  /** Left spine, middle tree and right spine are on the heap, without sharing. */
  ghost predicate Held(root: SplayNode?, dummy: SplayNode,
                       l: Spine<SplayNode>, m: Tree<SplayNode>, r: Spine<SplayNode>)
    reads {dummy}`left, {dummy}`right, AllNodes(l, m, r)
  {
    && Rep(root, m) && RepLeft(l, dummy) && RepRight(r, dummy)
    && SpineNodes(l) !! Nodes(m) && SpineNodes(l) !! SpineNodes(r) && Nodes(m) !! SpineNodes(r)
    && dummy !in AllNodes(l, m, r)
  }

  /** `Held`, and the pristine spare node is not in use. */
  ghost predicate Ready(root: SplayNode?, dummy: SplayNode, spare: SplayNode,
                        l: Spine<SplayNode>, m: Tree<SplayNode>, r: Spine<SplayNode>)
    reads {dummy}`left, {dummy}`right, {spare}`left, {spare}`right, AllNodes(l, m, r)
  {
    && Held(root, dummy, l, m, r)
    && spare != dummy && spare !in AllNodes(l, m, r)
    && spare.left == null && spare.right == null
  }

  /** A round keeps the nodes; the spare joins them only as the whole middle tree. */
  ghost predicate Grown(key: int, spare: SplayNode, before: set<SplayNode>, m: Tree<SplayNode>, after: set<SplayNode>) {
    || after == before
    || (m == Node(Leaf, spare, key, Leaf) && after == before + {spare})
  }

  /** The missing-child step of the loop body. */
  method AddLeft(root: SplayNode, key: int, dummy: SplayNode, spare: SplayNode,
                 ghost l: Spine<SplayNode>, ghost m: Tree<SplayNode>, ghost r: Spine<SplayNode>)
    requires m.Node? && Ready(root, dummy, spare, l, m, r)
    modifies root`left, spare`key
    ensures Held(root, dummy, l, FillLeft(m, key, spare), r)
    ensures m.left.Node? ==> Ready(root, dummy, spare, l, m, r)
    ensures spare.left == null && spare.right == null
    ensures var t := FillLeft(m, key, spare);
      && root == t.id && root.left != null && root.left.key == t.left.key
      && Grown(key, spare, AllNodes(l, m, r), t.left, AllNodes(l, t, r))
  {
    assert Rep(root, m) && Rep(root.left, m.left);
    if root.left == null {
      spare.key := key;
      root.left := spare;
    }
  }

  /** The rotation step of the loop body. */
  method LiftLeft(root: SplayNode, dummy: SplayNode, spare: SplayNode,
                  ghost l: Spine<SplayNode>, ghost m: Tree<SplayNode>, ghost r: Spine<SplayNode>)
    returns (top: SplayNode)
    requires m.Node? && m.left.Node? && Ready(root, dummy, spare, l, m, r)
    modifies root`left, m.left.id`right
    ensures Ready(top, dummy, spare, l, RotateRight(m), r) && top == m.left.id
    ensures AllNodes(l, RotateRight(m), r) == AllNodes(l, m, r)
  {
    assert Rep(root, m) && Rep(root.left, m.left);
    top := root.left;
    root.left := top.right;
    top.right := root;
    assert Rep(root, m.(left := m.left.right));
    RotationKeepsNodes(m);
  }

  /** The linking step: the root and its outer subtree become the new end of a spine. */
  method HangRight(top: SplayNode, dummy: SplayNode, rmin: SplayNode,
                   ghost l: Spine<SplayNode>, ghost t: Tree<SplayNode>, ghost r: Spine<SplayNode>)
    requires t.Node? && Held(top, dummy, l, t, r) && rmin == Last(r, dummy)
    modifies rmin`left
    ensures Held(top.left, dummy, l, t.left, Link(r, t.id, t.key, t.right))
    ensures AllNodes(l, t.left, Link(r, t.id, t.key, t.right)) == AllNodes(l, t, r)
    ensures top == t.id && (t.left.Node? ==> top.left == t.left.id)
  {
    assert Rep(top, t);
    rmin.left := top;
    assert RepRight(r, dummy) by {
      if r.Link? { assert RepRight(r.rest, dummy); assert Rep(r.id.right, r.side); }
    }
  }

  /** One round towards smaller keys. */
  method StepLeft(root: SplayNode, key: int, dummy: SplayNode, spare: SplayNode, rmin: SplayNode,
                  ghost l: Spine<SplayNode>, ghost m: Tree<SplayNode>, ghost r: Spine<SplayNode>)
    returns (next: SplayNode, newRmin: SplayNode)
    requires m.Node? && key < m.key && root == m.id
    requires Ready(root, dummy, spare, l, m, r) && rmin == Last(r, dummy)
    modifies Nodes(m)`left, Nodes(m)`right, rmin`left, spare`key
    ensures var t := TurnLeft(m, key, spare);
      && Held(next, dummy, l, t.left, Link(r, t.id, t.key, t.right))
      && newRmin == t.id && next == t.left.id
      && Grown(key, spare, AllNodes(l, m, r), t.left, AllNodes(l, t.left, Link(r, t.id, t.key, t.right)))
    ensures spare.left == null && spare.right == null
  {
    var top := root;
    assert m.left.Node? ==> m.left.id in Nodes(m.left) && m.left.id in Nodes(m);
    AddLeft(top, key, dummy, spare, l, m, r);
    if key < top.left.key {
      top := LiftLeft(top, dummy, spare, l, m, r);
      AddLeft(top, key, dummy, spare, l, RotateRight(m), r);
    }
    HangRight(top, dummy, rmin, l, TurnLeft(m, key, spare), r);
    newRmin := top;
    next := top.left;
  }

  /** The missing-child step of the loop body. */
  method AddRight(root: SplayNode, key: int, dummy: SplayNode, spare: SplayNode,
                 ghost l: Spine<SplayNode>, ghost m: Tree<SplayNode>, ghost r: Spine<SplayNode>)
    requires m.Node? && Ready(root, dummy, spare, l, m, r)
    modifies root`right, spare`key
    ensures Held(root, dummy, l, FillRight(m, key, spare), r)
    ensures m.right.Node? ==> Ready(root, dummy, spare, l, m, r)
    ensures spare.left == null && spare.right == null
    ensures var t := FillRight(m, key, spare);
      && root == t.id && root.right != null && root.right.key == t.right.key
      && Grown(key, spare, AllNodes(l, m, r), t.right, AllNodes(l, t, r))
  {
    assert Rep(root, m) && Rep(root.right, m.right);
    if root.right == null {
      spare.key := key;
      root.right := spare;
    }
  }

  /** The rotation step of the loop body. */
  method LiftRight(root: SplayNode, dummy: SplayNode, spare: SplayNode,
                  ghost l: Spine<SplayNode>, ghost m: Tree<SplayNode>, ghost r: Spine<SplayNode>)
    returns (top: SplayNode)
    requires m.Node? && m.right.Node? && Ready(root, dummy, spare, l, m, r)
    modifies root`right, m.right.id`left
    ensures Ready(top, dummy, spare, l, RotateLeft(m), r) && top == m.right.id
    ensures AllNodes(l, RotateLeft(m), r) == AllNodes(l, m, r)
  {
    assert Rep(root, m) && Rep(root.right, m.right);
    top := root.right;
    root.right := top.left;
    top.left := root;
    assert Rep(root, m.(right := m.right.left));
    RotationKeepsNodes(m);
  }

  /** The linking step: the root and its outer subtree become the new end of a spine. */
  method HangLeft(top: SplayNode, dummy: SplayNode, lmax: SplayNode,
                   ghost l: Spine<SplayNode>, ghost t: Tree<SplayNode>, ghost r: Spine<SplayNode>)
    requires t.Node? && Held(top, dummy, l, t, r) && lmax == Last(l, dummy)
    modifies lmax`right
    ensures Held(top.right, dummy, Link(l, t.id, t.key, t.left), t.right, r)
    ensures AllNodes(Link(l, t.id, t.key, t.left), t.right, r) == AllNodes(l, t, r)
    ensures top == t.id && (t.right.Node? ==> top.right == t.right.id)
  {
    assert Rep(top, t);
    lmax.right := top;
    assert RepLeft(l, dummy) by {
      if l.Link? { assert RepLeft(l.rest, dummy); assert Rep(l.id.left, l.side); }
    }
  }

  /** One round towards larger keys. */
  method StepRight(root: SplayNode, key: int, dummy: SplayNode, spare: SplayNode, lmax: SplayNode,
                  ghost l: Spine<SplayNode>, ghost m: Tree<SplayNode>, ghost r: Spine<SplayNode>)
    returns (next: SplayNode, newLmax: SplayNode)
    requires m.Node? && key > m.key && root == m.id
    requires Ready(root, dummy, spare, l, m, r) && lmax == Last(l, dummy)
    modifies Nodes(m)`left, Nodes(m)`right, lmax`right, spare`key
    ensures var t := TurnRight(m, key, spare);
      && Held(next, dummy, Link(l, t.id, t.key, t.left), t.right, r)
      && newLmax == t.id && next == t.right.id
      && Grown(key, spare, AllNodes(l, m, r), t.right, AllNodes(Link(l, t.id, t.key, t.left), t.right, r))
    ensures spare.left == null && spare.right == null
  {
    var top := root;
    assert m.right.Node? ==> m.right.id in Nodes(m.right) && m.right.id in Nodes(m);
    AddRight(top, key, dummy, spare, l, m, r);
    if key > top.right.key {
      top := LiftRight(top, dummy, spare, l, m, r);
      AddRight(top, key, dummy, spare, l, RotateLeft(m), r);
    }
    HangLeft(top, dummy, lmax, l, TurnRight(m, key, spare), r);
    newLmax := top;
    next := top.right;
  }

  /** The reassembly after the loop: the left hole is filled ... */
  method FillLeftHole(x: SplayNode?, y: SplayNode?, dummy: SplayNode, lmax: SplayNode,
                      ghost l: Spine<SplayNode>, ghost a: Tree<SplayNode>,
                      ghost b: Tree<SplayNode>, ghost r: Spine<SplayNode>)
    requires Rep(x, a) && RepLeft(l, dummy) && lmax == Last(l, dummy)
    requires SpineNodes(l) !! Nodes(a) && dummy !in SpineNodes(l) && dummy !in Nodes(a)
    requires Rep(y, b) && RepRight(r, dummy) && SpineNodes(l) !! Nodes(b) + SpineNodes(r)
    requires dummy !in Nodes(b) && dummy !in SpineNodes(r)
    modifies lmax`right
    ensures Rep(dummy.right, JoinLeft(l, a)) && Nodes(JoinLeft(l, a)) == SpineNodes(l) + Nodes(a)
    ensures Rep(y, b) && RepRight(r, dummy)
  {
    lmax.right := x;
    assert RepLeft(l, dummy) by {
      if l.Link? { assert RepLeft(l.rest, dummy); assert Rep(l.id.left, l.side); }
    }
    CloseLeft(l, dummy, x, a);
  }

  /** ... then the right one ... */
  method FillRightHole(x: SplayNode?, y: SplayNode?, dummy: SplayNode, rmin: SplayNode,
                       ghost r: Spine<SplayNode>, ghost a: Tree<SplayNode>, ghost b: Tree<SplayNode>)
    requires Rep(x, a) && RepRight(r, dummy) && rmin == Last(r, dummy)
    requires SpineNodes(r) !! Nodes(a) && dummy !in SpineNodes(r) && dummy !in Nodes(a)
    requires Rep(y, b) && SpineNodes(r) !! Nodes(b) && dummy !in Nodes(b)
    modifies rmin`left
    ensures Rep(dummy.left, JoinRight(r, a)) && Nodes(JoinRight(r, a)) == SpineNodes(r) + Nodes(a)
    ensures Rep(y, b)
  {
    rmin.left := x;
    assert RepRight(r, dummy) by {
      if r.Link? { assert RepRight(r.rest, dummy); assert Rep(r.id.right, r.side); }
    }
    CloseRight(r, dummy, x, a);
  }

  /** ... and the root takes both trees over from the dummy node. */
  method TakeOver(root: SplayNode, dummy: SplayNode, ghost a: Tree<SplayNode>, ghost b: Tree<SplayNode>)
    requires Rep(dummy.right, a) && Rep(dummy.left, b) && Nodes(a) !! Nodes(b)
    requires root !in Nodes(a) && root !in Nodes(b) && root != dummy
    modifies root`left, root`right
    ensures Rep(root, Node(a, root, root.key, b))
  {
    root.left := dummy.right;
    root.right := dummy.left;
  }

  method Close(root: SplayNode, dummy: SplayNode, lmax: SplayNode, rmin: SplayNode,
               ghost l: Spine<SplayNode>, ghost m: Tree<SplayNode>, ghost r: Spine<SplayNode>)
    requires m.Node? && root == m.id && Held(root, dummy, l, m, r)
    requires lmax == Last(l, dummy) && rmin == Last(r, dummy)
    modifies lmax`right, rmin`left, root`left, root`right
    ensures var t := Node(JoinLeft(l, m.left), m.id, m.key, JoinRight(r, m.right));
      Rep(root, t) && Nodes(t) == AllNodes(l, m, r)
  {
    assert root.key == m.key && root !in Nodes(m.left) && root !in Nodes(m.right)
           && Nodes(m.left) !! Nodes(m.right) && Rep(root.left, m.left) && Rep(root.right, m.right) by {
      assert Rep(root, m);
    }
    assert root in Nodes(m) && Nodes(m.left) <= Nodes(m) && Nodes(m.right) <= Nodes(m);
    assert (lmax == dummy || lmax in SpineNodes(l)) && (rmin == dummy || rmin in SpineNodes(r));
    ghost var a, b := JoinLeft(l, m.left), JoinRight(r, m.right);
    FillLeftHole(root.left, root.right, dummy, lmax, l, m.left, m.right, r);
    FillRightHole(root.right, dummy.right, dummy, rmin, r, m.right, a);
    TakeOver(root, dummy, a, b);
  }

  /** `splay_tree_update`: the tree below the returned node is `Update` of the old tree, on
      the very same nodes; the spare is among them exactly when it had to be used. */
  method SplayTreeUpdate(root: SplayNode?, key: int, dummy: SplayNode, spare: SplayNode,
                         ghost t: Tree<SplayNode>)
    returns (top: SplayNode)
    requires Rep(root, t) && dummy !in Nodes(t) && spare !in Nodes(t) && dummy != spare
    requires spare.left == null && spare.right == null
    modifies Nodes(t)`left, Nodes(t)`right, dummy`left, dummy`right, spare`key, spare`left, spare`right
    ensures var u := Update(t, key, spare);
      && Rep(top, u) && dummy !in Nodes(u)
      && Nodes(t) <= Nodes(u) <= Nodes(t) + {spare}
      && (spare !in Nodes(u) ==> spare.left == null && spare.right == null)
  {
    if root == null {
      spare.key := key;
      return spare;
    }
    dummy.left, dummy.right := null, null;
    var lmax, rmin, cur := dummy, dummy, root;
    ghost var l, m, r := Spine<SplayNode>.Empty, t, Spine<SplayNode>.Empty;
    while key != cur.key
      invariant m.Node? && cur == m.id && Held(cur, dummy, l, m, r)
      invariant lmax == Last(l, dummy) && rmin == Last(r, dummy)
      invariant m.key != key ==> Ready(cur, dummy, spare, l, m, r)
      invariant Nodes(t) <= AllNodes(l, m, r) <= Nodes(t) + {spare}
      invariant spare !in AllNodes(l, m, r) ==> spare.left == null && spare.right == null
      invariant Splay(l, m, r, key, spare) == Update(t, key, spare)
      decreases Work(m, key)
    {
      TurnShrinks(m, key, spare);
      if key < cur.key {
        ghost var turned := TurnLeft(m, key, spare);
        cur, rmin := StepLeft(cur, key, dummy, spare, rmin, l, m, r);
        m, r := turned.left, Link(r, turned.id, turned.key, turned.right);
      } else {
        ghost var turned := TurnRight(m, key, spare);
        cur, lmax := StepRight(cur, key, dummy, spare, lmax, l, m, r);
        l, m := Link(l, turned.id, turned.key, turned.left), turned.right;
      }
    }
    Close(cur, dummy, lmax, rmin, l, m, r);
    return cur;
  }

  /** The debugging variant builds the same tree, and adds one to its counter for the root and one for
      every round: that is at most the number of nodes of the resulting tree. */
  method SplayTreeUpdateTest(root: SplayNode?, key: int, dummy: SplayNode, spare: SplayNode,
                             visits: int, ghost t: Tree<SplayNode>)
    returns (top: SplayNode, visits': int)
    requires Rep(root, t) && dummy !in Nodes(t) && spare !in Nodes(t) && dummy != spare
    requires spare.left == null && spare.right == null
    modifies Nodes(t)`left, Nodes(t)`right, dummy`left, dummy`right, spare`key, spare`left, spare`right
    ensures var u := Update(t, key, spare);
      && Rep(top, u) && dummy !in Nodes(u)
      && Nodes(t) <= Nodes(u) <= Nodes(t) + {spare}
      && (spare !in Nodes(u) ==> spare.left == null && spare.right == null)
      && visits' == visits + 1 + Rounds(Search(t, key)) <= visits + Size(u)
  {
    visits' := visits;
    if root == null {
      visits' := visits' + 1;
      spare.key := key;
      return spare, visits';
    }
    dummy.left, dummy.right := null, null;
    var lmax, rmin, cur := dummy, dummy, root;
    ghost var l, m, r := Spine<SplayNode>.Empty, t, Spine<SplayNode>.Empty;
    visits' := visits' + 1;
    while key != cur.key
      invariant m.Node? && cur == m.id && Held(cur, dummy, l, m, r)
      invariant lmax == Last(l, dummy) && rmin == Last(r, dummy)
      invariant m.key != key ==> Ready(cur, dummy, spare, l, m, r)
      invariant Nodes(t) <= AllNodes(l, m, r) <= Nodes(t) + {spare}
      invariant spare !in AllNodes(l, m, r) ==> spare.left == null && spare.right == null
      invariant Splay(l, m, r, key, spare) == Update(t, key, spare)
      invariant visits' <= visits + 1 + SpineSize(l) + SpineSize(r)
      invariant visits' + Rounds(Search(m, key)) == visits + 1 + Rounds(Search(t, key))
      decreases Work(m, key)
    {
      TurnShrinks(m, key, spare);
      if key < cur.key {
        RoundLeft(m, key, spare);
        ghost var turned := TurnLeft(m, key, spare);
        cur, rmin := StepLeft(cur, key, dummy, spare, rmin, l, m, r);
        m, r := turned.left, Link(r, turned.id, turned.key, turned.right);
      } else {
        RoundRight(m, key, spare);
        ghost var turned := TurnRight(m, key, spare);
        cur, lmax := StepRight(cur, key, dummy, spare, lmax, l, m, r);
        l, m := Link(l, turned.id, turned.key, turned.left), turned.right;
      }
      visits' := visits' + 1;
    }
    JoinSizes(l, m.left, r, m.right);
    Close(cur, dummy, lmax, rmin, l, m, r);
    return cur, visits';
  }

  ghost function SpineSize<N>(sp: Spine<N>): nat {
    if sp.Empty? then 0 else 1 + SpineSize(sp.rest) + Size(sp.side)
  }

  lemma JoinSizes<N>(l: Spine<N>, a: Tree<N>, r: Spine<N>, b: Tree<N>)
    ensures Size(JoinLeft(l, a)) == SpineSize(l) + Size(a)
    ensures Size(JoinRight(r, b)) == SpineSize(r) + Size(b)
    decreases l, r
  {
    if l.Link? { JoinSizes(l.rest, Node(l.side, l.id, l.key, a), r, b); }
    if r.Link? { JoinSizes(l, a, r.rest, Node(b, r.id, r.key, r.side)); }
  }

  /** `splay_tree_size`, on the heap. */
  function SplayTreeSize(p: SplayNode?, ghost t: Tree<SplayNode>): (n: nat)
    requires Rep(p, t)
    reads Nodes(t)
    ensures n == Size(t)
    decreases t
  {
    if p == null then 0 else 1 + SplayTreeSize(p.left, t.left) + SplayTreeSize(p.right, t.right)
  }

  lemma NodesAreEntries(t: Tree<SplayNode>, n: SplayNode)
    ensures n in Nodes(t) <==> exists e :: e in Inorder(t) && e.id == n
  {
    if t.Node? {
      NodesAreEntries(t.left, n);
      NodesAreEntries(t.right, n);
      assert Entry(t.id, t.key) in Inorder(t);
      assert forall e :: e in Inorder(t) <==> e in Inorder(t.left) || e == Entry(t.id, t.key) || e in Inorder(t.right);
    }
  }

  lemma {:induction false} RepFields(p: SplayNode?, t: Tree<SplayNode>)
    requires Rep(p, t)
    ensures forall e :: e in Inorder(t) ==> e.key == e.id.key
    ensures forall n :: n in Nodes(t) ==> (n.left == null || n.left in Nodes(t)) && (n.right == null || n.right in Nodes(t))
  {
    if t.Node? {
      RepFields(p.left, t.left);
      RepFields(p.right, t.right);
    }
  }

  /** What the caller gets, read off the heap: the looked-for key is at the root, every old
      node still carries its key and is still in the tree, the spare is consumed exactly
      when the key was absent, and no node links to the dummy. */
  lemma UpdateOnHeap(t: Tree<SplayNode>, key: int, dummy: SplayNode, spare: SplayNode, top: SplayNode)
    requires IsSearchTree(t) && dummy !in Nodes(t) && spare !in Nodes(t) && dummy != spare
    requires Rep(top, Update(t, key, spare)) && dummy !in Nodes(Update(t, key, spare))
    ensures top.key == key
    ensures IsSearchTree(Update(t, key, spare))
    ensures forall n :: n in Nodes(t) ==> n in Nodes(Update(t, key, spare)) && Entry(n, n.key) in Inorder(t)
    ensures spare in Nodes(Update(t, key, spare)) <==> !HasKey(t, key)
    ensures forall n :: n in Nodes(Update(t, key, spare)) ==> n.left != dummy && n.right != dummy
  {
    var u := Update(t, key, spare);
    UpdateCorrect(t, key, spare);
    RepFields(top, u);
    forall n | n in Nodes(t) ensures n in Nodes(u) && Entry(n, n.key) in Inorder(t) {
      NodesAreEntries(t, n);
      NodesAreEntries(u, n);
      var e :| e in Inorder(t) && e.id == n;
      assert e in Inorder(u);
    }
    NodesAreEntries(t, spare);
    NodesAreEntries(u, spare);
    if !HasKey(t, key) {
      assert Entry(spare, key) in Inorder(u);
    }
  }
}

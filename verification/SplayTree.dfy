/** The splay tree that indexes the callees of a basic-block node.

    Trees are values here: `id` names the splay node that sits at a position.  The
    heap version in `SplayHeap` is proved to compute exactly `Update`. */
module SplayTree {

  datatype Tree<N> = Leaf | Node(left: Tree<N>, id: N, key: int, right: Tree<N>)

  /** One of the two partial trees of a top-down splay: a chain hanging off the dummy
      node.  The last link is the node whose free child pointer is the hole. */
  datatype Spine<N> = Empty | Link(rest: Spine<N>, id: N, key: int, side: Tree<N>)

  datatype Entry<N> = Entry(id: N, key: int)

  function Size<N>(t: Tree<N>): nat {
    if t.Leaf? then 0 else 1 + Size(t.left) + Size(t.right)
  }

  function Inorder<N>(t: Tree<N>): seq<Entry<N>> {
    if t.Leaf? then [] else Inorder(t.left) + [Entry(t.id, t.key)] + Inorder(t.right)
  }

  ghost predicate Sorted<N>(s: seq<Entry<N>>) {
    forall i, j :: 0 <= i < j < |s| ==> s[i].key < s[j].key
  }

  ghost predicate IsSearchTree<N>(t: Tree<N>) {
    Sorted(Inorder(t))
  }

  // ----- the splay step ------------------------------------------------------------

  /** Puts the spare node below `t` when the child on the search side is missing. */
  function FillLeft<N>(t: Tree<N>, key: int, spare: N): (r: Tree<N>)
    requires t.Node?
    ensures r.Node? && r.left.Node?
  {
    if t.left.Leaf? then t.(left := Node(Leaf, spare, key, Leaf)) else t
  }

  function FillRight<N>(t: Tree<N>, key: int, spare: N): (r: Tree<N>)
    requires t.Node?
    ensures r.Node? && r.right.Node?
  {
    if t.right.Leaf? then t.(right := Node(Leaf, spare, key, Leaf)) else t
  }

  function RotateRight<N>(t: Tree<N>): (r: Tree<N>)
    requires t.Node? && t.left.Node?
    ensures r.Node?
  {
    t.left.(right := t.(left := t.left.right))
  }

  function RotateLeft<N>(t: Tree<N>): (r: Tree<N>)
    requires t.Node? && t.right.Node?
    ensures r.Node?
  {
    t.right.(left := t.(right := t.right.left))
  }

  /** What one loop round makes of the middle tree before its root is linked away. */
  function TurnLeft<N>(t: Tree<N>, key: int, spare: N): (r: Tree<N>)
    requires t.Node?
    ensures r.Node? && r.left.Node?
  {
    var t1 := FillLeft(t, key, spare);
    if key < t1.left.key then FillLeft(RotateRight(t1), key, spare) else t1
  }

  function TurnRight<N>(t: Tree<N>, key: int, spare: N): (r: Tree<N>)
    requires t.Node?
    ensures r.Node? && r.right.Node?
  {
    var t1 := FillRight(t, key, spare);
    if key > t1.right.key then FillRight(RotateLeft(t1), key, spare) else t1
  }

  /** Plugs `t` into the hole of the left spine. */
  function JoinLeft<N>(sp: Spine<N>, t: Tree<N>): Tree<N> {
    match sp
    case Empty => t
    case Link(rest, id, key, side) => JoinLeft(rest, Node(side, id, key, t))
  }

  function JoinRight<N>(sp: Spine<N>, t: Tree<N>): Tree<N> {
    match sp
    case Empty => t
    case Link(rest, id, key, side) => JoinRight(rest, Node(t, id, key, side))
  }

  function Work<N>(m: Tree<N>, key: int): nat
    requires m.Node?
  {
    if m.key == key then 0 else 1 + Size(m)
  }

  /** Every round shrinks the middle tree, except the round that adds the spare node:
      it leaves a middle tree that already has the key at its root. */
  lemma TurnShrinks<N>(m: Tree<N>, key: int, spare: N)
    requires m.Node?
    ensures key < m.key ==> Work(TurnLeft(m, key, spare).left, key) < Work(m, key)
    ensures key > m.key ==> Work(TurnRight(m, key, spare).right, key) < Work(m, key)
  {
    if key < m.key && m.left.Node? && key < m.left.key {
      var t := RotateRight(m);
      assert Size(m) == 1 + Size(m.left) + Size(m.right);
      assert t.left == m.left.left;
    } else if key > m.key && m.right.Node? && key > m.right.key {
      var t := RotateLeft(m);
      assert Size(m) == 1 + Size(m.left) + Size(m.right);
      assert t.right == m.right.right;
    }
  }

  /** The loop of `splay_tree_update` on its three trees, and the final reassembly. */
  function Splay<N>(l: Spine<N>, m: Tree<N>, r: Spine<N>, key: int, spare: N): (t: Tree<N>)
    requires m.Node?
    ensures t.Node? && t.key == key
    decreases Work(m, key)
  {
    TurnShrinks(m, key, spare);
    if key == m.key then
      Node(JoinLeft(l, m.left), m.id, m.key, JoinRight(r, m.right))
    else if key < m.key then
      var t := TurnLeft(m, key, spare);
      Splay(l, t.left, Link(r, t.id, t.key, t.right), key, spare)
    else
      var t := TurnRight(m, key, spare);
      Splay(Link(l, t.id, t.key, t.left), t.right, r, key, spare)
  }

  function Update<N>(t: Tree<N>, key: int, spare: N): (r: Tree<N>)
    ensures r.Node? && r.key == key
  {
    if t.Leaf? then Node(Leaf, spare, key, Leaf) else Splay(Empty, t, Empty, key, spare)
  }

  // ----- what the update means -----------------------------------------------------

  /** Reference: dictionary insertion into a sorted list that keeps an existing entry. */
  function SortedInsert<N>(s: seq<Entry<N>>, key: int, spare: N): seq<Entry<N>> {
    if s == [] then [Entry(spare, key)]
    else if s[0].key == key then s
    else if key < s[0].key then [Entry(spare, key)] + s
    else [s[0]] + SortedInsert(s[1..], key, spare)
  }

  function InorderLeft<N>(sp: Spine<N>): seq<Entry<N>> {
    match sp
    case Empty => []
    case Link(rest, id, key, side) => InorderLeft(rest) + Inorder(side) + [Entry(id, key)]
  }

  function InorderRight<N>(sp: Spine<N>): seq<Entry<N>> {
    match sp
    case Empty => []
    case Link(rest, id, key, side) => [Entry(id, key)] + Inorder(side) + InorderRight(rest)
  }

  lemma {:induction false} JoinLeftInorder<N>(sp: Spine<N>, t: Tree<N>)
    ensures Inorder(JoinLeft(sp, t)) == InorderLeft(sp) + Inorder(t)
  {
    if sp.Link? {
      JoinLeftInorder(sp.rest, Node(sp.side, sp.id, sp.key, t));
    }
  }

  lemma {:induction false} JoinRightInorder<N>(sp: Spine<N>, t: Tree<N>)
    ensures Inorder(JoinRight(sp, t)) == Inorder(t) + InorderRight(sp)
  {
    if sp.Link? {
      JoinRightInorder(sp.rest, Node(t, sp.id, sp.key, sp.side));
    }
  }

  lemma {:induction false} SortedInsertBefore<N>(s: seq<Entry<N>>, u: seq<Entry<N>>, key: int, spare: N)
    requires u != [] && key < u[0].key
    ensures SortedInsert(s + u, key, spare) == SortedInsert(s, key, spare) + u
  {
    if s == [] {
      assert s + u == u;
    } else {
      assert (s + u)[1..] == s[1..] + u;
      SortedInsertBefore(s[1..], u, key, spare);
    }
  }

  lemma {:induction false} SortedInsertAfter<N>(s: seq<Entry<N>>, u: seq<Entry<N>>, key: int, spare: N)
    requires forall e :: e in s ==> e.key < key
    ensures SortedInsert(s + u, key, spare) == s + SortedInsert(u, key, spare)
  {
    if s == [] {
      assert s + u == u;
    } else {
      assert s[0] in s;
      assert (s + u)[1..] == s[1..] + u;
      SortedInsertAfter(s[1..], u, key, spare);
    }
  }

  ghost predicate Below<N>(s: seq<Entry<N>>, key: int) {
    forall e :: e in s ==> e.key < key
  }

  lemma SortedSplit<N>(s: seq<Entry<N>>, u: seq<Entry<N>>)
    requires Sorted(s + u)
    ensures Sorted(s) && Sorted(u)
    ensures u != [] ==> Below(s, u[0].key)
  {
    forall i, j | 0 <= i < j < |s| ensures s[i].key < s[j].key {
      assert (s + u)[i] == s[i] && (s + u)[j] == s[j];
    }
    forall i, j | 0 <= i < j < |u| ensures u[i].key < u[j].key {
      assert (s + u)[|s| + i] == u[i] && (s + u)[|s| + j] == u[j];
    }
    if u != [] {
      forall e | e in s ensures e.key < u[0].key {
        var i :| 0 <= i < |s| && s[i] == e;
        assert (s + u)[i] == e && (s + u)[|s|] == u[0];
      }
    }
  }

  lemma Regroup<E>(a: seq<E>, x: seq<E>, b: seq<E>, y: seq<E>, c: seq<E>)
    ensures a + x + (b + y + c) == (a + x + b) + y + c
  {
  }

  lemma RotateRightInorder<N>(t: Tree<N>)
    requires t.Node? && t.left.Node?
    ensures Inorder(RotateRight(t)) == Inorder(t)
  {
    var a := t.left;
    var lowered := t.(left := a.right);
    assert Inorder(lowered) == Inorder(a.right) + [Entry(t.id, t.key)] + Inorder(t.right);
    assert RotateRight(t) == a.(right := lowered);
    Regroup(Inorder(a.left), [Entry(a.id, a.key)], Inorder(a.right), [Entry(t.id, t.key)], Inorder(t.right));
  }

  lemma RotateLeftInorder<N>(t: Tree<N>)
    requires t.Node? && t.right.Node?
    ensures Inorder(RotateLeft(t)) == Inorder(t)
  {
    var a := t.right;
    var lowered := t.(right := a.left);
    assert Inorder(lowered) == Inorder(t.left) + [Entry(t.id, t.key)] + Inorder(a.left);
    assert RotateLeft(t) == a.(left := lowered);
    Regroup(Inorder(t.left), [Entry(t.id, t.key)], Inorder(a.left), [Entry(a.id, a.key)], Inorder(a.right));
  }

  lemma OneEntry<N>(id: N, key: int)
    ensures Inorder(Node(Leaf, id, key, Leaf)) == [Entry(id, key)]
    ensures SortedInsert([Entry(id, key)], key, id) == [Entry(id, key)] == SortedInsert([], key, id)
  {
  }

  /** Descending one step to the left commutes with sorted insertion. */
  lemma FillLeftInorder<N>(t: Tree<N>, key: int, spare: N)
    requires t.Node? && IsSearchTree(t) && key < t.key
    ensures var f := FillLeft(t, key, spare);
      && IsSearchTree(f.left)
      && SortedInsert(Inorder(t), key, spare)
         == SortedInsert(Inorder(f.left), key, spare) + [Entry(f.id, f.key)] + Inorder(f.right)
  {
    var up := [Entry(t.id, t.key)] + Inorder(t.right);
    assert Inorder(t) == Inorder(t.left) + up;
    SortedSplit(Inorder(t.left), up);
    SortedInsertBefore(Inorder(t.left), up, key, spare);
    if t.left.Leaf? {
      OneEntry(spare, key);
    }
  }

  lemma FillRightInorder<N>(t: Tree<N>, key: int, spare: N)
    requires t.Node? && IsSearchTree(t) && key > t.key
    ensures var f := FillRight(t, key, spare);
      && IsSearchTree(f.right)
      && SortedInsert(Inorder(t), key, spare)
         == Inorder(f.left) + [Entry(f.id, f.key)] + SortedInsert(Inorder(f.right), key, spare)
  {
    var down := Inorder(t.left) + [Entry(t.id, t.key)];
    var up := [Entry(t.id, t.key)] + Inorder(t.right);
    assert Inorder(t) == Inorder(t.left) + up;
    SortedSplit(Inorder(t.left), up);
    assert Inorder(t) == down + Inorder(t.right);
    SortedSplit(down, Inorder(t.right));
    SortedInsertAfter(down, Inorder(t.right), key, spare);
  }

  lemma TurnLeftInorder<N>(m: Tree<N>, key: int, spare: N)
    requires m.Node? && IsSearchTree(m) && key < m.key
    ensures var t := TurnLeft(m, key, spare);
      && IsSearchTree(t.left)
      && SortedInsert(Inorder(m), key, spare)
         == SortedInsert(Inorder(t.left), key, spare) + [Entry(t.id, t.key)] + Inorder(t.right)
  {
    if m.left.Node? && key < m.left.key {
      RotateRightInorder(m);
      FillLeftInorder(RotateRight(m), key, spare);
    } else {
      FillLeftInorder(m, key, spare);
    }
  }

  lemma TurnRightInorder<N>(m: Tree<N>, key: int, spare: N)
    requires m.Node? && IsSearchTree(m) && key > m.key
    ensures var t := TurnRight(m, key, spare);
      && IsSearchTree(t.right)
      && SortedInsert(Inorder(m), key, spare)
         == Inorder(t.left) + [Entry(t.id, t.key)] + SortedInsert(Inorder(t.right), key, spare)
  {
    if m.right.Node? && key > m.right.key {
      RotateLeftInorder(m);
      FillRightInorder(RotateLeft(m), key, spare);
    } else {
      FillRightInorder(m, key, spare);
    }
  }

  lemma MoveRight<E>(l: seq<E>, a: seq<E>, x: seq<E>, b: seq<E>, r: seq<E>)
    ensures l + a + (x + b + r) == l + (a + x + b) + r
  {
  }

  lemma MoveLeft<E>(l: seq<E>, a: seq<E>, x: seq<E>, b: seq<E>, r: seq<E>)
    ensures (l + a + x) + b + r == l + (a + x + b) + r
  {
  }

  lemma FoundInorder<N>(l: Spine<N>, m: Tree<N>, r: Spine<N>, spare: N)
    requires m.Node? && IsSearchTree(m)
    ensures SortedInsert(Inorder(m), m.key, spare) == Inorder(m)
    ensures Inorder(Node(JoinLeft(l, m.left), m.id, m.key, JoinRight(r, m.right)))
         == InorderLeft(l) + Inorder(m) + InorderRight(r)
  {
    var x := [Entry(m.id, m.key)];
    assert Inorder(m) == Inorder(m.left) + (x + Inorder(m.right));
    SortedSplit(Inorder(m.left), x + Inorder(m.right));
    SortedInsertAfter(Inorder(m.left), x + Inorder(m.right), m.key, spare);
    JoinLeftInorder(l, m.left);
    JoinRightInorder(r, m.right);
    FoundRegroup(InorderLeft(l), Inorder(m.left), x, Inorder(m.right), InorderRight(r));
  }

  lemma FoundRegroup<E>(l: seq<E>, a: seq<E>, x: seq<E>, b: seq<E>, r: seq<E>)
    ensures (l + a) + x + (b + r) == l + (a + x + b) + r
  {
  }

  lemma {:induction false} SplayInorder<N>(l: Spine<N>, m: Tree<N>, r: Spine<N>, key: int, spare: N)
    requires m.Node? && IsSearchTree(m)
    ensures Inorder(Splay(l, m, r, key, spare))
         == InorderLeft(l) + SortedInsert(Inorder(m), key, spare) + InorderRight(r)
    decreases Work(m, key)
  {
    TurnShrinks(m, key, spare);
    if key == m.key {
      FoundInorder(l, m, r, spare);
    } else if key < m.key {
      var t := TurnLeft(m, key, spare);
      var x := [Entry(t.id, t.key)];
      TurnLeftInorder(m, key, spare);
      SplayInorder(l, t.left, Link(r, t.id, t.key, t.right), key, spare);
      MoveRight(InorderLeft(l), SortedInsert(Inorder(t.left), key, spare), x, Inorder(t.right), InorderRight(r));
    } else {
      var t := TurnRight(m, key, spare);
      var x := [Entry(t.id, t.key)];
      TurnRightInorder(m, key, spare);
      SplayInorder(Link(l, t.id, t.key, t.left), t.right, r, key, spare);
      MoveLeft(InorderLeft(l), Inorder(t.left), x, SortedInsert(Inorder(t.right), key, spare), InorderRight(r));
    }
  }

  /** Main result: on a search tree, the update is sorted insertion of the spare node
      (or nothing but a reshaping, when the key is there already). */
  lemma UpdateInorder<N>(t: Tree<N>, key: int, spare: N)
    requires IsSearchTree(t)
    ensures Inorder(Update(t, key, spare)) == SortedInsert(Inorder(t), key, spare)
  {
    if t.Node? {
      SplayInorder(Empty, t, Empty, key, spare);
    }
  }

  ghost predicate HasKey<N>(t: Tree<N>, key: int) {
    exists e :: e in Inorder(t) && e.key == key
  }

  lemma {:induction false} SortedInsertPresent<N>(s: seq<Entry<N>>, key: int, spare: N, i: nat)
    requires Sorted(s) && i < |s| && s[i].key == key
    ensures SortedInsert(s, key, spare) == s
  {
    if i > 0 {
      assert s[0].key < s[i].key;
      assert s == [s[0]] + s[1..];
      SortedSplit([s[0]], s[1..]);
      SortedInsertPresent(s[1..], key, spare, i - 1);
    }
  }

  lemma {:induction false} SortedInsertAbsent<N>(s: seq<Entry<N>>, key: int, spare: N, e: Entry<N>)
    requires forall x :: x in s ==> x.key != key
    ensures e in SortedInsert(s, key, spare) <==> e in s || e == Entry(spare, key)
  {
    if s != [] && s[0].key < key {
      assert s == [s[0]] + s[1..];
      SortedInsertAbsent(s[1..], key, spare, e);
    }
  }

  lemma {:induction false} SortedInsertSorted<N>(s: seq<Entry<N>>, key: int, spare: N)
    requires Sorted(s) && forall x :: x in s ==> x.key != key
    ensures Sorted(SortedInsert(s, key, spare))
  {
    if s != [] && s[0].key < key {
      var ins := SortedInsert(s[1..], key, spare);
      SortedInsertSorted(s[1..], key, spare);
      forall i | 0 <= i < |ins| ensures s[0].key < ins[i].key {
        SortedInsertAbsent(s[1..], key, spare, ins[i]);
      }
    }
  }

  /** What the caller of the update relies on: the result is a search tree with the key at
      its root; nothing is lost; the spare node goes in exactly when the key was absent. */
  lemma UpdateCorrect<N>(t: Tree<N>, key: int, spare: N)
    requires IsSearchTree(t)
    ensures var r := Update(t, key, spare);
      && IsSearchTree(r)
      && (HasKey(t, key) ==> Inorder(r) == Inorder(t))
      && (!HasKey(t, key) ==>
            && r.id == spare
            && forall e :: e in Inorder(r) <==> e in Inorder(t) || e == Entry(spare, key))
  {
    var r := Update(t, key, spare);
    UpdateInorder(t, key, spare);
    if HasKey(t, key) {
      var e :| e in Inorder(t) && e.key == key;
      var i :| 0 <= i < |Inorder(t)| && Inorder(t)[i] == e;
      SortedInsertPresent(Inorder(t), key, spare, i);
    } else {
      forall e | e in Inorder(t) ensures e.key != key { }
      SortedInsertSorted(Inorder(t), key, spare);
      forall e { SortedInsertAbsent(Inorder(t), key, spare, e); }
      assert Inorder(r)[|Inorder(r.left)|] == Entry(r.id, r.key);
      assert Entry(r.id, r.key) in Inorder(r);
    }
  }

  // ----- the shape of the result ----------------------------------------------------

  datatype Cut<N> = Cut(small: Tree<N>, id: N, big: Tree<N>)

  /** Reference: the nodes below and above the key, cut apart by recursion along the search path, with
      a rotation where the path goes the same way twice */
  function CutAt<N>(t: Tree<N>, key: int, spare: N): Cut<N> {
    if t.Leaf? then Cut(Leaf, spare, Leaf)
    else if key == t.key then Cut(t.left, t.id, t.right)
    else if key < t.key then
      if t.left.Node? && key < t.left.key then
        var r := CutAt(t.left.left, key, spare);
        r.(big := Node(r.big, t.left.id, t.left.key, Node(t.left.right, t.id, t.key, t.right)))
      else
        var r := CutAt(t.left, key, spare);
        r.(big := Node(r.big, t.id, t.key, t.right))
    else
      if t.right.Node? && key > t.right.key then
        var r := CutAt(t.right.right, key, spare);
        r.(small := Node(Node(t.left, t.id, t.key, t.right.left), t.right.id, t.right.key, r.small))
      else
        var r := CutAt(t.right, key, spare);
        r.(small := Node(t.left, t.id, t.key, r.small))
  }

  /** The loop with its two spines and its holes computes the recursive cut. */
  lemma {:induction false} SplayCuts<N>(l: Spine<N>, m: Tree<N>, r: Spine<N>, key: int, spare: N)
    requires m.Node?
    ensures var c := CutAt(m, key, spare);
      Splay(l, m, r, key, spare) == Node(JoinLeft(l, c.small), c.id, key, JoinRight(r, c.big))
    decreases Work(m, key)
  {
    TurnShrinks(m, key, spare);
    if key < m.key {
      var t := TurnLeft(m, key, spare);
      SplayCuts(l, t.left, Link(r, t.id, t.key, t.right), key, spare);
    } else if key > m.key {
      var t := TurnRight(m, key, spare);
      SplayCuts(Link(l, t.id, t.key, t.left), t.right, r, key, spare);
    }
  }

  /** The update is the cut with the key's node put on top. */
  lemma UpdateIsCut<N>(t: Tree<N>, key: int, spare: N)
    ensures var c := CutAt(t, key, spare); Update(t, key, spare) == Node(c.small, c.id, key, c.big)
  {
    if t.Node? {
      SplayCuts(Empty, t, Empty, key, spare);
    }
  }

  // ----- the cost -------------------------------------------------------------------

  /** The way from the root to where `key` is, or would be inserted; true is to the left. */
  function Search<N>(t: Tree<N>, key: int): seq<bool> {
    if t.Leaf? || t.key == key then []
    else [key < t.key] + Search(if key < t.key then t.left else t.right, key)
  }

  /** Two steps the same way take one round of the loop; any other step takes one. */
  function Rounds(way: seq<bool>): nat {
    if way == [] then 0
    else if |way| > 1 && way[0] == way[1] then 1 + Rounds(way[2..])
    else 1 + Rounds(way[1..])
  }

  lemma RoundLeft<N>(m: Tree<N>, key: int, spare: N)
    requires m.Node? && key < m.key
    ensures Rounds(Search(m, key)) == 1 + Rounds(Search(TurnLeft(m, key, spare).left, key))
  {
    var way := Search(m, key);
    assert way[1..] == Search(m.left, key);
    if m.left.Node? && key < m.left.key {
      assert way[2..] == Search(m.left.left, key);
    }
  }

  lemma RoundRight<N>(m: Tree<N>, key: int, spare: N)
    requires m.Node? && key > m.key
    ensures Rounds(Search(m, key)) == 1 + Rounds(Search(TurnRight(m, key, spare).right, key))
  {
    var way := Search(m, key);
    assert way[1..] == Search(m.right, key);
    if m.right.Node? && key > m.right.key {
      assert way[2..] == Search(m.right.right, key);
    }
  }

  /** A node with key `k` is passed on the way to `key`. */
  ghost predicate OnWay<N>(t: Tree<N>, key: int, k: int) {
    t.Node? && (t.key == k || (key < t.key && OnWay(t.left, key, k)) || (key > t.key && OnWay(t.right, key, k)))
  }

  lemma {:induction false} OnWayIsThere<N>(t: Tree<N>, key: int, k: int)
    requires OnWay(t, key, k)
    ensures HasKey(t, k)
  {
    if t.key == k {
      assert Inorder(t)[|Inorder(t.left)|] == Entry(t.id, t.key);
    } else {
      var child := if key < t.key then t.left else t.right;
      OnWayIsThere(child, key, k);
      var e :| e in Inorder(child) && e.key == k;
      assert e in Inorder(t);
    }
  }

  lemma ChildrenOrdered<N>(t: Tree<N>, k: int)
    requires t.Node? && IsSearchTree(t)
    ensures IsSearchTree(t.left) && IsSearchTree(t.right)
    ensures HasKey(t.left, k) ==> k < t.key
    ensures HasKey(t.right, k) ==> k > t.key
  {
    var root := [Entry(t.id, t.key)];
    assert Inorder(t) == Inorder(t.left) + (root + Inorder(t.right));
    SortedSplit(Inorder(t.left), root + Inorder(t.right));
    SortedSplit(root, Inorder(t.right));
    if HasKey(t.right, k) {
      var e :| e in Inorder(t.right) && e.key == k;
      var i :| 0 <= i < |Inorder(t.right)| && Inorder(t.right)[i] == e;
      assert (root + Inorder(t.right))[0].key < (root + Inorder(t.right))[i + 1].key;
    }
    if HasKey(t.left, k) {
      var e :| e in Inorder(t.left) && e.key == k;
    }
  }

  /** How deep a node passed at depth `d` may end up in its part: one less on the side that the way does
      not start out from */
  function PartDepth(d: nat, sameSide: bool): nat {
    if sameSide then d / 2 + 1 else (d + 1) / 2
  }

  /** What the cut does to the depth of a node on the way */
  ghost predicate Halved<N>(t: Tree<N>, key: int, spare: N, k: int)
    requires t.Node?
  {
    var c, d := CutAt(t, key, spare), |Search(t, k)|;
    && (k < key ==> |Search(c.small, k)| <= PartDepth(d, t.key < key))
    && (k > key ==> |Search(c.big, k)| <= PartDepth(d, key < t.key))
  }

  lemma {:induction false} CutHalves<N>(t: Tree<N>, key: int, spare: N, k: int)
    requires IsSearchTree(t) && OnWay(t, key, k)
    ensures Halved(t, key, spare, k)
    decreases t
  {
    if k != t.key && k != key {
      if key < t.key {
        CutHalvesLeft(t, key, spare, k);
      } else {
        CutHalvesRight(t, key, spare, k);
      }
    } else if k == t.key && key < k && t.left.Node? && key < t.left.key {
      ChildrenOrdered(t, t.left.key);
      OnWayIsThere(t.left, t.left.key, t.left.key);
    } else if k == t.key && key > k && t.right.Node? && key > t.right.key {
      ChildrenOrdered(t, t.right.key);
      OnWayIsThere(t.right, t.right.key, t.right.key);
    }
  }

  lemma {:induction false} CutHalvesLeft<N>(t: Tree<N>, key: int, spare: N, k: int)
    requires IsSearchTree(t) && OnWay(t, key, k) && key < t.key && k != t.key && k != key
    ensures Halved(t, key, spare, k)
    decreases t, 0
  {
    var c := t.left;
    OnWayIsThere(c, key, k);
    ChildrenOrdered(t, k);
    if key < c.key && k != c.key {
      OnWayIsThere(c.left, key, k);
      ChildrenOrdered(c, k);
      CutHalves(c.left, key, spare, k);
    } else if key > c.key {
      CutHalves(c, key, spare, k);
    }
  }

  lemma {:induction false} CutHalvesRight<N>(t: Tree<N>, key: int, spare: N, k: int)
    requires IsSearchTree(t) && OnWay(t, key, k) && key > t.key && k != t.key && k != key
    ensures Halved(t, key, spare, k)
    decreases t, 0
  {
    var c := t.right;
    OnWayIsThere(c, key, k);
    ChildrenOrdered(t, k);
    if key > c.key && k != c.key {
      OnWayIsThere(c.right, key, k);
      ChildrenOrdered(c, k);
      CutHalves(c.right, key, spare, k);
    } else if key < c.key {
      CutHalves(c, key, spare, k);
    }
  }

  /** Splaying roughly halves the depth of every node on the way to the key. */
  lemma WayIsHalved<N>(t: Tree<N>, key: int, spare: N, k: int)
    requires IsSearchTree(t) && OnWay(t, key, k)
    ensures |Search(Update(t, key, spare), k)| <= |Search(t, k)| / 2 + 2
  {
    UpdateIsCut(t, key, spare);
    CutHalves(t, key, spare, k);
  }
}

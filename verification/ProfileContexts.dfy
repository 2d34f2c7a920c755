/** The contexts of a profile: a chain of callers is added from the outermost in, and contexts that
    are known are shared. */
module ProfileContexts {
  import opened Options

  /** A link of a chain of contexts, innermost first: handle and instruction address */
  datatype Link = Link(hndl: nat, ip: nat)

  /** `context_t`, found by its handle */
  datatype Context = Context(location: nat, parent: Option<nat>, children: seq<nat>)

  type Contexts = map<nat, Context>

  /** The constructor of a context tells the parent about its new child. */
  function Adopt(m: Contexts, parent: Option<nat>, child: nat): Contexts {
    match parent
    case None => m
    case Some(p) => if p in m then m[p := m[p].(children := m[p].children + [child])] else m
  }

  /** A new context below `parent`; inserting never replaces a context that is there. */
  function Entered(m: Contexts, h: nat, ip: nat, parent: Option<nat>): Contexts {
    var m' := Adopt(m, parent, h);
    if h in m' then m' else m'[h := Context(ip, parent, [])]
  }

  function ParentAt(chain: seq<Link>, i: nat): Option<nat> {
    if i + 1 < |chain| then Some(chain[i + 1].hndl) else None
  }

  /** `add_context` */
  function Added(m: Contexts, chain: seq<Link>): Contexts {
    if chain == [] || chain[0].hndl in m then m
    else Entered(Added(m, chain[1..]), chain[0].hndl, chain[0].ip, ParentAt(chain, 0))
  }

  class Profile {
    var contexts: Contexts

    method AddContext(chain: seq<Link>) returns (r: Option<nat>)
      modifies this
      ensures contexts == Added(old(contexts), chain)
      ensures r == if chain == [] then None else Some(chain[0].hndl)
      decreases |chain|
    {
      if chain == [] {
        return None;
      }
      var h := chain[0].hndl;
      if h in contexts {
        return Some(h);
      }
      var parent := AddContext(chain[1..]);
      if parent.Some? && parent.value in contexts {
        var p := contexts[parent.value];
        contexts := contexts[parent.value := p.(children := p.children + [h])];
      }
      if h !in contexts {
        contexts := contexts[h := Context(chain[0].ip, parent, [])];
      }
      return Some(h);
    }
  }

  // ----- links ----------------------------------------------------------------------

  ghost predicate IsChild(m: Contexts, p: nat, h: nat) {
    h in m && m[h].parent == Some(p)
  }

  /** Parents are there, and the lists of children are the parent links read backwards, each child
      listed once. */
  ghost predicate Linked(m: Contexts) {
    && (forall h :: h in m && m[h].parent.Some? ==> m[h].parent.value in m)
    && (forall p, h :: p in m ==> (h in m[p].children <==> IsChild(m, p, h)))
    && (forall p :: p in m ==> Distinct(m[p].children))
  }

  ghost predicate Distinct(s: seq<nat>) {
    forall i, j :: 0 <= i < j < |s| ==> s[i] != s[j]
  }

  ghost predicate DistinctHandles(chain: seq<Link>) {
    forall i, j :: 0 <= i < j < |chain| ==> chain[i].hndl != chain[j].hndl
  }

  ghost predicate Has(m: Contexts, chain: seq<Link>) {
    forall i :: 0 <= i < |chain| ==> chain[i].hndl in m
  }

  /** The links in front of the first context that is known: those that get added. */
  function NewPart(m: Contexts, chain: seq<Link>): seq<Link> {
    if chain == [] || chain[0].hndl in m then [] else [chain[0]] + NewPart(m, chain[1..])
  }

  predicate Occurs(chain: seq<Link>, h: nat) {
    exists i :: 0 <= i < |chain| && chain[i].hndl == h
  }

  /** What a chain adds is its new part. */
  lemma {:induction false} OnlyNewPart(m: Contexts, chain: seq<Link>, h: nat)
    ensures h in Added(m, chain) <==> h in m || Occurs(NewPart(m, chain), h)
    ensures h in m ==>
      && !Occurs(NewPart(m, chain), h)
      && Added(m, chain)[h].parent == m[h].parent && Added(m, chain)[h].location == m[h].location
    ensures chain != [] ==> chain[0].hndl in Added(m, chain)
  {
    if chain != [] && chain[0].hndl !in m {
      OnlyNewPart(m, chain[1..], h);
      OccursFirst(m, chain, h);
    }
  }

  lemma OccursFirst(m: Contexts, chain: seq<Link>, h: nat)
    requires chain != [] && chain[0].hndl !in m
    ensures Occurs(NewPart(m, chain), h) <==> chain[0].hndl == h || Occurs(NewPart(m, chain[1..]), h)
  {
    var added, rest := NewPart(m, chain), NewPart(m, chain[1..]);
    if i :| 0 <= i < |rest| && rest[i].hndl == h {
      assert added[i + 1].hndl == h;
    }
    if i :| 0 <= i < |added| && added[i].hndl == h {
      assert i > 0 ==> rest[i - 1].hndl == h;
    }
    assert added[0] == chain[0];
  }

  /** The new part of a chain repeats no handle if that of its rest does not, and the first handle
      is not in there. */
  lemma DistinctFirst(m: Contexts, chain: seq<Link>)
    requires chain != [] && chain[0].hndl !in m
    ensures DistinctHandles(NewPart(m, chain))
       <==> DistinctHandles(NewPart(m, chain[1..])) && !Occurs(NewPart(m, chain[1..]), chain[0].hndl)
  {
    DistinctCons(chain[0], NewPart(m, chain[1..]));
  }

  lemma DistinctCons(first: Link, rest: seq<Link>)
    ensures DistinctHandles([first] + rest) <==> DistinctHandles(rest) && !Occurs(rest, first.hndl)
  {
    var all := [first] + rest;
    if DistinctHandles(all) {
      forall j | 0 <= j < |rest| ensures rest[j].hndl != first.hndl && forall i :: 0 <= i < j ==> rest[i].hndl != rest[j].hndl {
        assert all[0] == first && all[j + 1] == rest[j];
        assert forall i :: 0 <= i < j ==> all[i + 1] == rest[i];
      }
    }
    if DistinctHandles(rest) && !Occurs(rest, first.hndl) {
      forall i, j | 0 <= i < j < |all| ensures all[i].hndl != all[j].hndl {
        assert all[j] == rest[j - 1] && (i > 0 ==> all[i] == rest[i - 1]);
      }
    }
  }

  lemma NewChild(m: Contexts, h: nat, ip: nat, parent: Option<nat>)
    requires Linked(m) && h !in m && (parent.Some? ==> parent.value in m)
    ensures Linked(Entered(m, h, ip, parent))
  {
    var m' := Entered(m, h, ip, parent);
    forall p, x | p in m' ensures x in m'[p].children <==> IsChild(m', p, x) {
      assert p in m ==> (x in m[p].children <==> IsChild(m, p, x));
      if p == h && x in m {
        assert m[x].parent != Some(h);
      }
    }
    forall p | p in m' ensures Distinct(m'[p].children) {
      if parent == Some(p) {
        assert !IsChild(m, p, h);
        assert h !in m[p].children;
        assert m'[p].children == m[p].children + [h];
      }
    }
  }

  /** Context `h` is listed below `p` although its parent link says otherwise, or twice. */
  ghost predicate BrokenAt(m: Contexts, p: nat, h: nat) {
    p in m && h in m && h in m[p].children && (m[h].parent != Some(p) || !Distinct(m[p].children))
  }

  ghost predicate Broken(m: Contexts) {
    exists p, h :: BrokenAt(m, p, h)
  }

  /** Entering a context that is there already breaks the links ... */
  lemma EnteredTwice(m: Contexts, h: nat, ip: nat, parent: nat)
    requires Linked(m) && h in m && parent in m
    ensures Broken(Entered(m, h, ip, Some(parent)))
  {
    var m' := Entered(m, h, ip, Some(parent));
    var kids := m[parent].children;
    assert m'[parent].children == kids + [h];
    if m[h].parent == Some(parent) {
      assert IsChild(m, parent, h);
      var i :| 0 <= i < |kids| && kids[i] == h;
      assert m'[parent].children[i] == m'[parent].children[|kids|];
    }
    assert BrokenAt(m', parent, h);
  }

  /** ... and nothing mends them. */
  lemma StaysBroken(m: Contexts, h: nat, ip: nat, parent: Option<nat>)
    requires Broken(m)
    ensures Broken(Entered(m, h, ip, parent))
  {
    var p, x :| BrokenAt(m, p, x);
    var m' := Entered(m, h, ip, parent);
    var kids := m[p].children;
    assert kids <= m'[p].children && x in m'[p].children;
    if !Distinct(kids) {
      var i, j :| 0 <= i < j < |kids| && kids[i] == kids[j];
      assert m'[p].children[i] == m'[p].children[j];
    }
    assert BrokenAt(m', p, x);
  }

  /** Exactly the chains whose new part repeats no handle keep the links consistent. */
  lemma {:induction false} LinkedExactlyIf(m: Contexts, chain: seq<Link>)
    requires Linked(m)
    ensures Linked(Added(m, chain)) <==> DistinctHandles(NewPart(m, chain))
    ensures Linked(Added(m, chain)) || Broken(Added(m, chain))
  {
    if chain != [] && chain[0].hndl !in m {
      var rest, h, parent := chain[1..], chain[0].hndl, ParentAt(chain, 0);
      LinkedExactlyIf(m, rest);
      DistinctFirst(m, chain);
      OnlyNewPart(m, rest, h);
      assert parent.Some? ==> rest[0] == chain[1];
      if parent.Some? {
        OnlyNewPart(m, rest, parent.value);
      }
      if !DistinctHandles(NewPart(m, rest)) {
        StaysBroken(Added(m, rest), h, chain[0].ip, parent);
      } else if h in Added(m, rest) {
        EnteredTwice(Added(m, rest), h, chain[0].ip, parent.value);
      } else {
        NewChild(Added(m, rest), h, chain[0].ip, parent);
      }
    }
  }

  /** In particular chains without repeated handles do, whatever was added before. */
  lemma AddedIsLinked(m: Contexts, chain: seq<Link>)
    requires Linked(m) && DistinctHandles(chain)
    ensures Linked(Added(m, chain))
  {
    NewPartDistinct(m, chain);
    LinkedExactlyIf(m, chain);
  }

  lemma {:induction false} NewPartDistinct(m: Contexts, chain: seq<Link>)
    requires DistinctHandles(chain)
    ensures DistinctHandles(NewPart(m, chain)) && NewPart(m, chain) <= chain
  {
    if chain != [] && chain[0].hndl !in m {
      var rest := chain[1..];
      assert forall i :: 0 <= i < |rest| ==> rest[i] == chain[i + 1];
      NewPartDistinct(m, rest);
      assert chain == [chain[0]] + rest;
      assert forall i :: 0 <= i < |NewPart(m, rest)| ==> NewPart(m, rest)[i] == rest[i];
      DistinctFirst(m, chain);
    }
  }

  /** For example, context 5 would be listed as a child of 3, but have no parent. */
  lemma RepeatedHandleBreaksLinks()
    ensures !Linked(Added(map[], [Link(5, 0), Link(3, 0), Link(5, 0)]))
  {
    var chain, none: Contexts := [Link(5, 0), Link(3, 0), Link(5, 0)], map[];
    assert chain[1..] == [Link(3, 0), Link(5, 0)] && chain[1..][1..] == [Link(5, 0)];
    assert NewPart(none, chain)[0] == NewPart(none, chain)[2];
    LinkedExactlyIf(none, chain);
  }

  // ----- reading a chain back -------------------------------------------------------

  /** The chain from context `h` up to the outermost, at most `n` links */
  ghost function UpFrom(m: Contexts, h: nat, n: nat): seq<Link>
    decreases n
  {
    if n == 0 || h !in m then []
    else
      [Link(h, m[h].location)] +
      match m[h].parent
      case None => []
      case Some(p) => UpFrom(m, p, n - 1)
  }

  ghost predicate LinkAgrees(m: Contexts, chain: seq<Link>, i: nat)
    requires i < |chain|
  {
    chain[i].hndl in m ==> m[chain[i].hndl].location == chain[i].ip && m[chain[i].hndl].parent == ParentAt(chain, i)
  }

  /** `chain` agrees with the contexts that are there. */
  ghost predicate Agrees(m: Contexts, chain: seq<Link>) {
    forall i :: 0 <= i < |chain| ==> LinkAgrees(m, chain, i)
  }

  lemma AgreesRest(m: Contexts, chain: seq<Link>)
    requires chain != []
    ensures Agrees(m, chain) <==> LinkAgrees(m, chain, 0) && Agrees(m, chain[1..])
    ensures Has(m, chain) <==> chain[0].hndl in m && Has(m, chain[1..])
  {
    var rest := chain[1..];
    forall i | 0 <= i < |rest| ensures LinkAgrees(m, rest, i) <==> LinkAgrees(m, chain, i + 1) {
      assert rest[i] == chain[i + 1] && ParentAt(rest, i) == ParentAt(chain, i + 1);
    }
    if LinkAgrees(m, chain, 0) && Agrees(m, rest) {
      forall i | 0 <= i < |chain| ensures LinkAgrees(m, chain, i) {
        assert i > 0 ==> LinkAgrees(m, rest, i - 1);
      }
    }
    if Agrees(m, chain) {
      forall i | 0 <= i < |rest| ensures LinkAgrees(m, rest, i) {
        assert LinkAgrees(m, chain, i + 1);
      }
    }
    if chain[0].hndl in m && Has(m, rest) {
      forall i | 0 <= i < |chain| ensures chain[i].hndl in m {
        assert i > 0 ==> chain[i] == rest[i - 1];
      }
    }
    if Has(m, chain) {
      forall i | 0 <= i < |rest| ensures rest[i].hndl in m {
        assert rest[i] == chain[i + 1];
      }
    }
  }

  lemma {:induction false} UpIsChain(m: Contexts, chain: seq<Link>)
    requires Agrees(m, chain) && Has(m, chain) && chain != []
    ensures UpFrom(m, chain[0].hndl, |chain|) == chain
  {
    AgreesRest(m, chain);
    assert LinkAgrees(m, chain, 0);
    if |chain| > 1 {
      assert chain[1..][0] == chain[1];
      UpIsChain(m, chain[1..]);
    }
  }

  /** Contexts that are there have their parents there: once one link of an agreeing chain is known,
      all further out are. */
  lemma {:induction false} KnownOutwards(m: Contexts, chain: seq<Link>)
    requires Linked(m) && Agrees(m, chain) && chain != [] && chain[0].hndl in m
    ensures Has(m, chain)
  {
    AgreesRest(m, chain);
    assert LinkAgrees(m, chain, 0);
    if |chain| > 1 {
      assert chain[1..][0] == chain[1];
      KnownOutwards(m, chain[1..]);
    }
  }

  lemma {:induction false} ChainReadsBack(m: Contexts, chain: seq<Link>)
    requires Linked(m) && DistinctHandles(NewPart(m, chain)) && Agrees(m, chain)
    ensures Has(Added(m, chain), chain) && Agrees(Added(m, chain), chain)
    ensures chain != [] ==> UpFrom(Added(m, chain), chain[0].hndl, |chain|) == chain
  {
    if chain != [] {
      if chain[0].hndl in m {
        KnownOutwards(m, chain);
      } else {
        AgreesRest(m, chain);
        DistinctFirst(m, chain);
        ChainReadsBack(m, chain[1..]);
        OnlyNewPart(m, chain[1..], chain[0].hndl);
        OneMoreAgrees(m, chain);
        AgreesRest(Added(m, chain), chain);
      }
      UpIsChain(Added(m, chain), chain);
    }
  }

  /** The first link of a chain changes no location and no parent further out. */
  lemma OneMoreAgrees(m: Contexts, chain: seq<Link>)
    requires chain != [] && chain[0].hndl !in m && chain[0].hndl !in Added(m, chain[1..])
    requires Has(Added(m, chain[1..]), chain[1..]) && Agrees(Added(m, chain[1..]), chain[1..])
    ensures Has(Added(m, chain), chain[1..]) && Agrees(Added(m, chain), chain[1..])
    ensures chain[0].hndl in Added(m, chain) && LinkAgrees(Added(m, chain), chain, 0)
  {
    var rest := chain[1..];
    forall i | 0 <= i < |rest| ensures rest[i].hndl in Added(m, chain) && LinkAgrees(Added(m, chain), rest, i) {
      assert LinkAgrees(Added(m, rest), rest, i) && rest[i].hndl in Added(m, rest);
    }
  }

  /** A walk that gives a chain has followed its links. */
  lemma {:induction false} WalkFollows(m: Contexts, chain: seq<Link>, i: nat)
    requires chain != [] && UpFrom(m, chain[0].hndl, |chain|) == chain && i < |chain|
    ensures chain[i].hndl in m && (i + 1 < |chain| ==> m[chain[i].hndl].parent == Some(chain[i + 1].hndl))
  {
    var h, rest := chain[0].hndl, chain[1..];
    if |chain| > 1 {
      var p := m[h].parent.value;
      assert UpFrom(m, p, |rest|) == rest;
      assert rest[0].hndl == p;
      if i > 0 {
        assert rest[i - 1] == chain[i];
        WalkFollows(m, rest, i - 1);
      }
    }
  }

  /** A chain that is new altogether ends in a context without parent, whatever else it holds. */
  lemma {:induction false} OutermostHasNoParent(m: Contexts, chain: seq<Link>)
    requires chain != [] && NewPart(m, chain) == chain
    ensures chain[|chain| - 1].hndl in Added(m, chain) && Added(m, chain)[chain[|chain| - 1].hndl].parent == None
  {
    if |chain| > 1 {
      assert NewPart(m, chain)[1..] == NewPart(m, chain[1..]);
      OutermostHasNoParent(m, chain[1..]);
    }
  }

  lemma {:induction false} NewPartIsFront(m: Contexts, chain: seq<Link>)
    ensures var n := |NewPart(m, chain)|;
      && n <= |chain| && NewPart(m, chain) == chain[..n]
      && (forall i :: 0 <= i < n ==> chain[i].hndl !in m)
      && (n < |chain| ==> chain[n].hndl in m)
  {
    if chain != [] && chain[0].hndl !in m {
      var n := |NewPart(m, chain[1..])|;
      NewPartIsFront(m, chain[1..]);
      assert forall i :: 0 < i < |chain| ==> chain[i] == chain[1..][i - 1];
      assert NewPart(m, chain) == chain[..n + 1];
    }
  }

  /** If the walk gives the chain back, equal handles in its new part would be followed by equal
      handles up to where it ends or meets what is known. */
  lemma {:induction false} NoneTwice(m: Contexts, chain: seq<Link>, i: nat, j: nat)
    requires chain != [] && UpFrom(Added(m, chain), chain[0].hndl, |chain|) == chain
    requires i < j < |NewPart(m, chain)| <= |chain|
    ensures chain[i].hndl != chain[j].hndl
    decreases |chain| - j
  {
    var n := |NewPart(m, chain)|;
    NewPartIsFront(m, chain);
    WalkFollows(Added(m, chain), chain, i);
    WalkFollows(Added(m, chain), chain, j);
    if j + 1 < n {
      NoneTwice(m, chain, i + 1, j + 1);
    } else if n == |chain| {
      assert chain[..n] == chain;
      OutermostHasNoParent(m, chain);
    }
  }

  /** After a chain is added that agrees with what is there, walking up from its first context gives
      the chain back exactly if its new part repeats no handle. */
  lemma ReadsBackExactlyIf(m: Contexts, chain: seq<Link>)
    requires Linked(m) && Agrees(m, chain) && chain != []
    ensures UpFrom(Added(m, chain), chain[0].hndl, |chain|) == chain <==> DistinctHandles(NewPart(m, chain))
  {
    if DistinctHandles(NewPart(m, chain)) {
      ChainReadsBack(m, chain);
    }
    if UpFrom(Added(m, chain), chain[0].hndl, |chain|) == chain {
      NewPartIsFront(m, chain);
      forall i, j | 0 <= i < j < |NewPart(m, chain)| ensures NewPart(m, chain)[i].hndl != NewPart(m, chain)[j].hndl {
        NoneTwice(m, chain, i, j);
      }
    }
  }
}

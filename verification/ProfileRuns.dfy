/** The profile of a whole run: the calling contexts that are sampled come from one tree, so their
    chains never contradict each other. */
module ProfileRuns {
  import opened Options
  import opened CallingContext
  import opened ContextRuns
  import opened CallPaths
  import opened ProfileContexts

  const WORD64: nat := 0x1_0000_0000_0000_0000

  /** `get_thread_id_by_root_bb` */
  ghost function ThreadOf(s: System, n: nat): nat
    requires IsThreadRoot(s, n)
  {
    var t :| 0 <= t < |s.threads| && s.threads[t].root == n;
    t
  }

  /** The address `ctxt_get_from_ctxt_hndl` gives a context: 0 for the handle above all threads, one
      made up from the thread number for thread roots. */
  ghost function ContextIp(prog: seq<Shadow>, s: System, h: nat): nat
    requires SystemInv(prog, s) && IsValidHandle(s.cct, h)
  {
    if h == ROOT_CALLER_HANDLE then 0
    else
      assert Owned(s.cct, h);
      var n := s.cct.owner[h].value;
      assert NodeRooted(s.cct, n);
      if s.cct.nodes[n].parent.None? then (WORD64 - 1 - ThreadOf(s, n)) % WORD64 else HandlePc(prog, s.cct, h)
  }

  /** The chain of callers of a context, as `drcctlib_get_full_cct` links it */
  ghost function Chain(prog: seq<Shadow>, s: System, h: nat): (r: seq<Link>)
    requires SystemInv(prog, s) && IsValidHandle(s.cct, h)
    ensures r != [] && r[0] == Link(h, ContextIp(prog, s, h))
  {
    [Link(h, ContextIp(prog, s, h))] +
    if h == ROOT_CALLER_HANDLE then [] else Chain(prog, s, CallerHandle(prog, s.cct, h))
  }

  /** Its handles are those of the list of contexts. */
  lemma {:induction false} ChainIsCct(prog: seq<Shadow>, s: System, h: nat)
    requires SystemInv(prog, s) && IsValidHandle(s.cct, h)
    ensures var chain, all := Chain(prog, s, h), Ancestors(prog, s.cct, h);
      |chain| == |all| && forall i :: 0 <= i < |all| ==> chain[i].hndl == all[i]
  {
    if h != ROOT_CALLER_HANDLE {
      ChainIsCct(prog, s, CallerHandle(prog, s.cct, h));
    }
  }

  ghost predicate IsThreadIp(s: System, root: nat, ip: nat) {
    exists t :: 0 <= t < |s.threads| && s.threads[t].root == root && ip == (0xFFFF_FFFF_FFFF_FFFF - t) % WORD64
  }

  /** `ips` along the chain, then the address of the thread with root `root`, then handle 1. */
  ghost predicate HasIps(s: System, root: nat, chain: seq<Link>, ips: seq<nat>) {
    && |chain| == |ips| + 2
    && (forall i :: 0 <= i < |ips| ==> chain[i].ip == ips[i])
    && IsThreadIp(s, root, chain[|ips|].ip) && chain[|ips| + 1] == Link(ROOT_CALLER_HANDLE, 0)
  }

  lemma HasIpsNext(s: System, root: nat, chain: seq<Link>, ips: seq<nat>, link: Link)
    requires HasIps(s, root, chain, ips)
    ensures HasIps(s, root, [link] + chain, [link.ip] + ips)
  {
  }

  /** The addresses along a chain are the calling addresses of its context. */
  lemma {:induction false} ChainIps(prog: seq<Shadow>, s: System, h: nat)
    requires SystemInv(prog, s) && IsContext(prog, s.cct, h)
    ensures Owned(s.cct, h)
    ensures HasIps(s, RootOf(s.cct, s.cct.owner[h].value), Chain(prog, s, h), ContextIps(prog, s.cct, h))
  {
    CallerContext(prog, s.cct, h);
    ContextIpsStep(prog, s.cct, h);
    var p := CallerHandle(prog, s.cct, h);
    if p == ROOT_CALLER_HANDLE {
      RootThreadIp(prog, s, h);
    } else {
      ChainIps(prog, s, p);
      HasIpsNext(s, RootOf(s.cct, s.cct.owner[h].value), Chain(prog, s, p), ContextIps(prog, s.cct, p), Chain(prog, s, h)[0]);
    }
  }

  lemma RootThreadIp(prog: seq<Shadow>, s: System, h: nat)
    requires SystemInv(prog, s) && IsContext(prog, s.cct, h) && CallerHandle(prog, s.cct, h) == ROOT_CALLER_HANDLE
    ensures Owned(s.cct, h)
    ensures IsThreadIp(s, RootOf(s.cct, s.cct.owner[h].value), ContextIp(prog, s, h))
  {
    CallerContext(prog, s.cct, h);
    var n := s.cct.owner[h].value;
    assert NodeRooted(s.cct, n);
    assert s.cct.nodes[n].parent.None? && IsThreadRoot(s, n);
    assert s.threads[ThreadOf(s, n)].root == n;
  }

  lemma {:induction false} ChainFalls(prog: seq<Shadow>, s: System, h: nat)
    requires SystemInv(prog, s) && IsValidHandle(s.cct, h)
    ensures DistinctHandles(Chain(prog, s, h)) && forall i :: 0 <= i < |Chain(prog, s, h)| ==> Chain(prog, s, h)[i].hndl <= h
  {
    if h != ROOT_CALLER_HANDLE {
      ChainFalls(prog, s, CallerHandle(prog, s.cct, h));
    }
  }

  // ----- samples --------------------------------------------------------------------

  /** A context asked for after `moment` events, with at most `maxDepth` callers unless that is
      negative */
  datatype Sample = Sample(moment: nat, hndl: nat, maxDepth: int)

  ghost predicate Taken(prog: seq<Shadow>, es: seq<Event>, x: Sample) {
    && IsProgram(prog) && x.moment <= |es| && Run(prog, es[..x.moment]).Some?
    && IsValidHandle(Run(prog, es[..x.moment]).value.cct, x.hndl)
  }

  ghost function FullChain(prog: seq<Shadow>, es: seq<Event>, x: Sample): seq<Link>
    requires Taken(prog, es, x)
  {
    RunRefinesStacks(prog, es[..x.moment]);
    Chain(prog, Run(prog, es[..x.moment]).value, x.hndl)
  }

  /** The chain that `drcctlib_get_cct` gives for a sample */
  ghost function SampleChain(prog: seq<Shadow>, es: seq<Event>, x: Sample): seq<Link>
    requires Taken(prog, es, x)
  {
    var all := FullChain(prog, es, x);
    if x.maxDepth < 0 || x.maxDepth + 1 >= |all| then all else all[..x.maxDepth + 1]
  }

  ghost predicate AllTaken(prog: seq<Shadow>, es: seq<Event>, xs: seq<Sample>) {
    forall i :: 0 <= i < |xs| ==> Taken(prog, es, xs[i])
  }

  /** All callers were asked for. */
  ghost predicate Whole(xs: seq<Sample>) {
    forall i :: 0 <= i < |xs| ==> xs[i].maxDepth < 0
  }

  /** The contexts after all samples have been added in turn */
  ghost function ProfileOf(prog: seq<Shadow>, es: seq<Event>, xs: seq<Sample>): Contexts
    requires AllTaken(prog, es, xs)
  {
    if xs == [] then map[]
    else Added(ProfileOf(prog, es, xs[..|xs| - 1]), SampleChain(prog, es, xs[|xs| - 1]))
  }

  /** Whatever is sampled in a run, whenever and however deep: the contexts of the profile stay
      closed under parents, and the lists of children are the parent links read backwards. */
  lemma {:induction false} ProfileIsLinked(prog: seq<Shadow>, es: seq<Event>, xs: seq<Sample>)
    requires AllTaken(prog, es, xs)
    ensures Linked(ProfileOf(prog, es, xs))
  {
    if xs != [] {
      var x := xs[|xs| - 1];
      ProfileIsLinked(prog, es, xs[..|xs| - 1]);
      RunRefinesStacks(prog, es[..x.moment]);
      ChainFalls(prog, Run(prog, es[..x.moment]).value, x.hndl);
      AddedIsLinked(ProfileOf(prog, es, xs[..|xs| - 1]), SampleChain(prog, es, x));
    }
  }

  // ----- chains taken at different moments agree ------------------------------------

  ghost predicate Grows(s: System, s': System) {
    && s.cct.nodes <= s'.cct.nodes && s.cct.owner <= s'.cct.owner && |s.threads| <= |s'.threads|
    && forall t :: 0 <= t < |s.threads| ==> s'.threads[t].root == s.threads[t].root
  }

  lemma RootsDiffer(prog: seq<Shadow>, s: System, t: nat, u: nat)
    requires SystemInv(prog, s) && t < |s.threads| && u < |s.threads|
    ensures s.threads[t].root == s.threads[u].root ==> t == u
  {
    if t < u {
      assert Separate(s.threads[t], s.threads[u]);
    } else if u < t {
      assert Separate(s.threads[u], s.threads[t]);
    }
  }

  lemma RootStays(prog: seq<Shadow>, s: System, s': System, n: nat)
    requires SystemInv(prog, s') && Grows(s, s') && IsThreadRoot(s, n)
    ensures IsThreadRoot(s', n) && ThreadOf(s', n) == ThreadOf(s, n)
  {
    var t := ThreadOf(s, n);
    assert s'.threads[t].root == n;
    RootsDiffer(prog, s', t, ThreadOf(s', n));
  }

  lemma ContextStays(prog: seq<Shadow>, s: System, s': System, h: nat)
    requires SystemInv(prog, s) && SystemInv(prog, s') && Grows(s, s') && IsContext(prog, s.cct, h)
    ensures IsContext(prog, s'.cct, h) && ContextIp(prog, s', h) == ContextIp(prog, s, h)
    ensures CallerHandle(prog, s'.cct, h) == CallerHandle(prog, s.cct, h)
  {
    assert Owned(s.cct, h) && s'.cct.owner[h] == s.cct.owner[h];
    var n := s.cct.owner[h].value;
    assert s'.cct.nodes[n] == s.cct.nodes[n] && NodeRooted(s.cct, n);
    if s.cct.nodes[n].parent.None? {
      RootStays(prog, s, s', n);
    } else {
      assert s'.cct.nodes[s.cct.nodes[n].parent.value] == s.cct.nodes[s.cct.nodes[n].parent.value];
    }
  }

  lemma {:induction false} ChainStays(prog: seq<Shadow>, s: System, s': System, h: nat)
    requires SystemInv(prog, s) && SystemInv(prog, s') && IsValidHandle(s.cct, h) && Grows(s, s')
    ensures IsValidHandle(s'.cct, h) && Chain(prog, s', h) == Chain(prog, s, h)
  {
    if h != ROOT_CALLER_HANDLE {
      ContextStays(prog, s, s', h);
      ChainStays(prog, s, s', CallerHandle(prog, s.cct, h));
    }
  }

  lemma PrefixGrows(prog: seq<Shadow>, es: seq<Event>, n: nat)
    requires IsProgram(prog) && Run(prog, es).Some? && n <= |es| && Run(prog, es[..n]).Some?
    ensures Grows(Run(prog, es[..n]).value, Run(prog, es).value)
  {
    assert es == es[..n] + es[n..];
    RunExtends(prog, es[..n], es[n..]);
  }

  /** A chain taken earlier is the chain that would be taken at the end of the run. */
  lemma TakenStays(prog: seq<Shadow>, es: seq<Event>, x: Sample)
    requires Taken(prog, es, x) && Run(prog, es).Some?
    ensures SystemInv(prog, Run(prog, es).value) && IsValidHandle(Run(prog, es).value.cct, x.hndl)
    ensures FullChain(prog, es, x) == Chain(prog, Run(prog, es).value, x.hndl)
  {
    PrefixGrows(prog, es, x.moment);
    RunRefinesStacks(prog, es[..x.moment]);
    RunRefinesStacks(prog, es);
    ChainStays(prog, Run(prog, es[..x.moment]).value, Run(prog, es).value, x.hndl);
  }

  ghost function CallerLink(prog: seq<Shadow>, s: System, h: nat): Option<nat>
    requires SystemInv(prog, s) && IsValidHandle(s.cct, h)
  {
    if h == ROOT_CALLER_HANDLE then None else Some(CallerHandle(prog, s.cct, h))
  }

  ghost predicate ContextMirrors(prog: seq<Shadow>, s: System, m: Contexts, h: nat)
    requires SystemInv(prog, s) && h in m
  {
    && IsValidHandle(s.cct, h)
    && m[h].location == ContextIp(prog, s, h) && m[h].parent == CallerLink(prog, s, h)
  }

  /** Every context of the profile is a context of the tree, with its address and its caller. */
  ghost predicate Mirrors(prog: seq<Shadow>, s: System, m: Contexts)
    requires SystemInv(prog, s)
  {
    forall h :: h in m ==> ContextMirrors(prog, s, m, h)
  }

  lemma {:induction false} MirrorAgrees(prog: seq<Shadow>, s: System, m: Contexts, h: nat)
    requires SystemInv(prog, s) && IsValidHandle(s.cct, h) && Mirrors(prog, s, m)
    ensures ProfileContexts.Agrees(m, Chain(prog, s, h))
  {
    assert h in m ==> ContextMirrors(prog, s, m, h);
    var chain := Chain(prog, s, h);
    if h != ROOT_CALLER_HANDLE {
      var p := CallerHandle(prog, s.cct, h);
      MirrorAgrees(prog, s, m, p);
      assert chain[1..] == Chain(prog, s, p) && chain[1].hndl == p;
    } else {
      assert chain[1..] == [];
    }
    assert LinkAgrees(m, chain, 0);
    AgreesRest(m, chain);
  }

  lemma {:induction false} AddedMirrors(prog: seq<Shadow>, s: System, m: Contexts, h: nat)
    requires SystemInv(prog, s) && IsValidHandle(s.cct, h) && Mirrors(prog, s, m)
    ensures Mirrors(prog, s, Added(m, Chain(prog, s, h)))
  {
    var chain := Chain(prog, s, h);
    if h !in m {
      if h != ROOT_CALLER_HANDLE {
        var p := CallerHandle(prog, s.cct, h);
        AddedMirrors(prog, s, m, p);
        assert chain[1..] == Chain(prog, s, p) && chain[1].hndl == p;
      } else {
        assert chain[1..] == [];
      }
      forall g | g in Added(m, chain) ensures ContextMirrors(prog, s, Added(m, chain), g) {
        if g in Added(m, chain[1..]) {
          assert ContextMirrors(prog, s, Added(m, chain[1..]), g);
        }
      }
    }
  }

  lemma {:induction false} ProfileMirrors(prog: seq<Shadow>, es: seq<Event>, xs: seq<Sample>)
    requires IsProgram(prog) && Run(prog, es).Some? && AllTaken(prog, es, xs)
    requires Whole(xs)
    ensures SystemInv(prog, Run(prog, es).value) && Mirrors(prog, Run(prog, es).value, ProfileOf(prog, es, xs))
  {
    RunRefinesStacks(prog, es);
    if xs != [] {
      ProfileMirrors(prog, es, xs[..|xs| - 1]);
      TakenStays(prog, es, xs[|xs| - 1]);
      AddedMirrors(prog, Run(prog, es).value, ProfileOf(prog, es, xs[..|xs| - 1]), xs[|xs| - 1].hndl);
    }
  }

  /** What is there stays there, with its address and its parent. */
  lemma {:induction false} AddedKeeps(m: Contexts, chain: seq<Link>, known: seq<Link>)
    requires Has(m, known)
    ensures Has(Added(m, chain), known)
  {
    forall i | 0 <= i < |known| ensures known[i].hndl in Added(m, chain) {
      OnlyNewPart(m, chain, known[i].hndl);
    }
  }

  lemma AddedHas(prog: seq<Shadow>, s: System, m: Contexts, h: nat)
    requires SystemInv(prog, s) && IsValidHandle(s.cct, h) && Mirrors(prog, s, m) && Linked(m)
    ensures Has(Added(m, Chain(prog, s, h)), Chain(prog, s, h))
  {
    var chain := Chain(prog, s, h);
    MirrorAgrees(prog, s, m, h);
    ChainFalls(prog, s, h);
    NewPartDistinct(m, chain);
    ChainReadsBack(m, chain);
  }

  /** The sample added last is in the profile. */
  lemma NewestHas(prog: seq<Shadow>, es: seq<Event>, xs: seq<Sample>)
    requires IsProgram(prog) && Run(prog, es).Some? && AllTaken(prog, es, xs) && xs != [] && Whole(xs)
    ensures Has(ProfileOf(prog, es, xs), FullChain(prog, es, xs[|xs| - 1]))
  {
    var init, x := xs[..|xs| - 1], xs[|xs| - 1];
    ProfileIsLinked(prog, es, init);
    ProfileMirrors(prog, es, init);
    TakenStays(prog, es, x);
    AddedHas(prog, Run(prog, es).value, ProfileOf(prog, es, init), x.hndl);
  }

  lemma {:induction false} ProfileHas(prog: seq<Shadow>, es: seq<Event>, xs: seq<Sample>, i: nat)
    requires IsProgram(prog) && Run(prog, es).Some? && AllTaken(prog, es, xs) && i < |xs| && Whole(xs)
    ensures Has(ProfileOf(prog, es, xs), FullChain(prog, es, xs[i]))
  {
    if i == |xs| - 1 {
      NewestHas(prog, es, xs);
    } else {
      var init := xs[..|xs| - 1];
      ProfileHas(prog, es, init, i);
      AddedKeeps(ProfileOf(prog, es, init), SampleChain(prog, es, xs[|xs| - 1]), FullChain(prog, es, init[i]));
    }
  }

  /** Main result: a profile of whole calling contexts, sampled at any moments of a run of any number
      of threads, gives every sampled chain back when walked up from its context; and it holds the
      contexts of those chains only. */
  lemma ProfileReadsBack(prog: seq<Shadow>, es: seq<Event>, xs: seq<Sample>)
    requires IsProgram(prog) && Run(prog, es).Some? && AllTaken(prog, es, xs)
    requires Whole(xs)
    ensures forall i :: 0 <= i < |xs| ==>
      var chain := FullChain(prog, es, xs[i]); UpFrom(ProfileOf(prog, es, xs), xs[i].hndl, |chain|) == chain
    ensures forall h :: h in ProfileOf(prog, es, xs) <==> exists i :: 0 <= i < |xs| && Occurs(FullChain(prog, es, xs[i]), h)
  {
    var m := ProfileOf(prog, es, xs);
    ProfileMirrors(prog, es, xs);
    forall i | 0 <= i < |xs|
      ensures Has(m, FullChain(prog, es, xs[i]))
      ensures UpFrom(m, xs[i].hndl, |FullChain(prog, es, xs[i])|) == FullChain(prog, es, xs[i])
    {
      TakenStays(prog, es, xs[i]);
      MirrorAgrees(prog, Run(prog, es).value, m, xs[i].hndl);
      ProfileHas(prog, es, xs, i);
      UpIsChain(m, FullChain(prog, es, xs[i]));
    }
    forall h | h in m ensures exists i :: 0 <= i < |xs| && Occurs(FullChain(prog, es, xs[i]), h) {
      ProfileOnly(prog, es, xs, h);
    }
  }

  lemma {:induction false} ProfileOnly(prog: seq<Shadow>, es: seq<Event>, xs: seq<Sample>, h: nat)
    requires AllTaken(prog, es, xs) && h in ProfileOf(prog, es, xs)
    ensures exists i :: 0 <= i < |xs| && Occurs(FullChain(prog, es, xs[i]), h)
  {
    var init, x := xs[..|xs| - 1], xs[|xs| - 1];
    var m, chain := ProfileOf(prog, es, init), SampleChain(prog, es, x);
    if h in m {
      ProfileOnly(prog, es, init, h);
      var i :| 0 <= i < |init| && Occurs(FullChain(prog, es, init[i]), h);
      assert xs[i] == init[i];
    } else {
      OnlyNewPart(m, chain, h);
      NewPartIsFront(m, chain);
      var j :| 0 <= j < |NewPart(m, chain)| && NewPart(m, chain)[j].hndl == h;
      assert FullChain(prog, es, x)[j] == NewPart(m, chain)[j];
      assert Occurs(FullChain(prog, es, xs[|xs| - 1]), h);
    }
  }
}

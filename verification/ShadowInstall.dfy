/** Concurrent creation of shadow pages: every thread that misses a table or a page allocates
    one of its own and tries to install it with compare-and-swap; losers free theirs. */
module ShadowInstall {
  import opened Options
  import opened ShadowSlots

  /** Where a thread is in `GetOrCreateShadowBaseAddress(a)`; `mine` is its own, still private
      allocation, `table` the second-level table it goes on with. */
  datatype Pc =
    | Idle
    | LoadTable(a: nat)
    | AllocTable(a: nat)
    | CasTable(a: nat, mine: nat)
    | FreeTable(a: nat, mine: nat)
    | ReloadTable(a: nat)
    | LoadPage(a: nat, table: nat)
    | AllocPage(a: nat, table: nat)
    | CasPage(a: nat, table: nat, mine: nat)
    | FreePage(a: nat, table: nat, mine: nat)
    | ReloadPage(a: nat, table: nat)
    | Return(a: nat, page: nat)

  datatype Answer = Answer(a: nat, page: nat)

  datatype Release = Release(who: nat, id: nat)

  /** Allocations are numbered, `allocators` says by whom each was made; absent slots are null.
      `freed` lists what has been freed and by whom, `answers` what the calls have returned. */
  datatype Shadow = Shadow(dir: map<nat, nat>, slots: map<(nat, nat), nat>, allocators: seq<nat>,
                           freed: seq<Release>, answers: seq<Answer>, threads: seq<Pc>)

  /** `Call(t, a)` starts a call in an idle thread; `Go(t)` is the next atomic step of a call. */
  datatype Event = Call(t: nat, a: nat) | Go(t: nat)

  function Next(s: Shadow, e: Event): Option<Shadow> {
    if e.t >= |s.threads| then None
    else
      match e
      case Call(t, a) =>
        if s.threads[t].Idle? then Some(s.(threads := s.threads[t := LoadTable(a)])) else None
      case Go(t) => GoOn(s, t)
  }

  function GoOn(s: Shadow, t: nat): Option<Shadow>
    requires t < |s.threads|
  {
    match s.threads[t]
    case Idle => None
    case LoadTable(a) =>
      Some(To(s, t, if L1Slot(a) in s.dir then LoadPage(a, s.dir[L1Slot(a)]) else AllocTable(a)))
    case AllocTable(a) =>
      Some(To(s, t, CasTable(a, |s.allocators|)).(allocators := s.allocators + [t]))
    case CasTable(a, mine) =>
      if L1Slot(a) in s.dir then Some(To(s, t, FreeTable(a, mine)))
      else Some(To(s, t, LoadPage(a, mine)).(dir := s.dir[L1Slot(a) := mine]))
    case FreeTable(a, mine) =>
      Some(To(s, t, ReloadTable(a)).(freed := s.freed + [Release(t, mine)]))
    case ReloadTable(a) =>
      if L1Slot(a) in s.dir then Some(To(s, t, LoadPage(a, s.dir[L1Slot(a)]))) else None
    case LoadPage(a, table) =>
      Some(To(s, t, if (table, L2Slot(a)) in s.slots then Return(a, s.slots[(table, L2Slot(a))]) else AllocPage(a, table)))
    case AllocPage(a, table) =>
      Some(To(s, t, CasPage(a, table, |s.allocators|)).(allocators := s.allocators + [t]))
    case CasPage(a, table, mine) =>
      if (table, L2Slot(a)) in s.slots then Some(To(s, t, FreePage(a, table, mine)))
      else Some(To(s, t, Return(a, mine)).(slots := s.slots[(table, L2Slot(a)) := mine]))
    case FreePage(a, table, mine) =>
      Some(To(s, t, ReloadPage(a, table)).(freed := s.freed + [Release(t, mine)]))
    case ReloadPage(a, table) =>
      if (table, L2Slot(a)) in s.slots then Some(To(s, t, Return(a, s.slots[(table, L2Slot(a))]))) else None
    case Return(a, page) =>
      Some(To(s, t, Idle).(answers := s.answers + [Answer(a, page)]))
  }

  function To(s: Shadow, t: nat, pc: Pc): Shadow
    requires t < |s.threads|
  {
    s.(threads := s.threads[t := pc])
  }

  function Start(threads: nat): Shadow {
    Shadow(map[], map[], [], [], [], seq(threads, _ => Idle))
  }

  function Run(threads: nat, es: seq<Event>): Option<Shadow> {
    if es == [] then Some(Start(threads))
    else
      match Run(threads, es[..|es| - 1])
      case None => None
      case Some(s) => Next(s, es[|es| - 1])
  }

  // ----- invariant ------------------------------------------------------------------

  predicate IsPrivate(pc: Pc, id: nat) {
    (pc.CasTable? || pc.FreeTable? || pc.CasPage? || pc.FreePage?) && pc.mine == id
  }

  /** Where an allocation can be. */
  datatype Place = InDir(l1: nat) | InSlot(table: nat, l2: nat) | With(t: nat) | Freed(i: nat)

  ghost predicate At(s: Shadow, id: nat, p: Place) {
    match p
    case InDir(l1) => l1 in s.dir && s.dir[l1] == id
    case InSlot(table, l2) => (table, l2) in s.slots && s.slots[(table, l2)] == id
    case With(t) => t < |s.threads| && IsPrivate(s.threads[t], id)
    case Freed(i) => i < |s.freed| && s.freed[i].id == id
  }

  ghost predicate Somewhere(s: Shadow, id: nat) {
    exists p :: At(s, id, p)
  }

  /** Every allocation is in exactly one place: installed once, private to one thread, or freed
      once. */
  ghost predicate OnePlace(s: Shadow) {
    && (forall id: nat, p :: At(s, id, p) ==> id < |s.allocators|)
    && (forall id: nat, p, q :: At(s, id, p) && At(s, id, q) ==> p == q)
    && (forall id: nat :: id < |s.allocators| ==> Somewhere(s, id))
  }

  /** What a thread holds or has freed is what it allocated. */
  ghost predicate Own(s: Shadow) {
    && (forall id: nat, t :: id < |s.allocators| && At(s, id, With(t)) ==> s.allocators[id] == t)
    && (forall i :: 0 <= i < |s.freed| ==> s.freed[i].id < |s.allocators| && s.allocators[s.freed[i].id] == s.freed[i].who)
  }

  /** Table `table` is installed. */
  ghost predicate Reachable(s: Shadow, table: nat) {
    exists l1 :: l1 in s.dir && s.dir[l1] == table
  }

  ghost predicate InRange(s: Shadow) {
    && (forall l1 :: l1 in s.dir ==> l1 < L1_ENTRIES)
    && (forall k :: k in s.slots ==> k.1 < L2_ENTRIES && Reachable(s, k.0))
  }

  ghost predicate HasTable(s: Shadow, a: nat, table: nat) {
    L1Slot(a) in s.dir && s.dir[L1Slot(a)] == table
  }

  /** The page installed for address `a` is `page`. */
  ghost predicate HasPage(s: Shadow, a: nat, page: nat) {
    && L1Slot(a) in s.dir && (s.dir[L1Slot(a)], L2Slot(a)) in s.slots
    && s.slots[(s.dir[L1Slot(a)], L2Slot(a))] == page
  }

  /** What a thread knows about the table and the page it works on. */
  ghost predicate PcOk(s: Shadow, pc: Pc) {
    match pc
    case ReloadTable(a) => L1Slot(a) in s.dir
    case FreeTable(a, _) => L1Slot(a) in s.dir
    case LoadPage(a, table) => HasTable(s, a, table)
    case AllocPage(a, table) => HasTable(s, a, table)
    case CasPage(a, table, _) => HasTable(s, a, table)
    case FreePage(a, table, _) => HasTable(s, a, table) && (table, L2Slot(a)) in s.slots
    case ReloadPage(a, table) => HasTable(s, a, table) && (table, L2Slot(a)) in s.slots
    case Return(a, page) => HasPage(s, a, page)
    case _ => true
  }

  ghost predicate Knows(s: Shadow) {
    && (forall t :: 0 <= t < |s.threads| ==> PcOk(s, s.threads[t]))
    && (forall i :: 0 <= i < |s.answers| ==> HasPage(s, s.answers[i].a, s.answers[i].page))
  }

  ghost predicate Inv(s: Shadow) {
    OnePlace(s) && Own(s) && InRange(s) && Knows(s)
  }

  /** Installed slots never change; what is freed or returned stays so. */
  ghost predicate Grows(s: Shadow, s': Shadow) {
    && (forall k :: k in s.dir ==> k in s'.dir && s'.dir[k] == s.dir[k])
    && (forall k :: k in s.slots ==> k in s'.slots && s'.slots[k] == s.slots[k])
    && s.freed <= s'.freed && s.answers <= s'.answers && s.allocators <= s'.allocators
    && |s'.threads| == |s.threads|
  }

  lemma PcOkGrows(s: Shadow, s': Shadow, pc: Pc)
    requires Grows(s, s') && PcOk(s, pc)
    ensures PcOk(s', pc)
  {
  }

  // ----- every step keeps the invariant ---------------------------------------------

  /** The place where allocation `id`, at `p`, is after the next step of thread `t`. */
  function Moved(s: Shadow, t: nat, p: Place): Place
    requires t < |s.threads|
  {
    if p != With(t) then p
    else
      match s.threads[t]
      case CasTable(a, _) => if L1Slot(a) in s.dir then p else InDir(L1Slot(a))
      case FreeTable(_, _) => Freed(|s.freed|)
      case CasPage(a, table, _) => if (table, L2Slot(a)) in s.slots then p else InSlot(table, L2Slot(a))
      case FreePage(_, _, _) => Freed(|s.freed|)
      case _ => p
  }

  /** The place where an allocation at `p` after the step of thread `t` was before it. */
  function Before(s: Shadow, t: nat, p: Place): Place {
    match p
    case InDir(l1) => if l1 in s.dir then p else With(t)
    case InSlot(table, l2) => if (table, l2) in s.slots then p else With(t)
    case With(_) => p
    case Freed(i) => if i < |s.freed| then p else With(t)
  }

  predicate Allocates(s: Shadow, t: nat, id: nat)
    requires t < |s.threads|
  {
    (s.threads[t].AllocTable? || s.threads[t].AllocPage?) && id == |s.allocators|
  }

  /** A step moves what it holds ... */
  lemma PlacesMove(s: Shadow, t: nat, id: nat, p: Place)
    requires t < |s.threads| && GoOn(s, t).Some? && At(s, id, p)
    ensures At(GoOn(s, t).value, id, Moved(s, t, p))
  {
    match p
    case InDir(_) =>
    case InSlot(_, _) =>
    case With(_) =>
    case Freed(_) =>
  }

  /** ... nothing else moves there, and a new allocation is with its thread. */
  lemma PlacesStem(s: Shadow, t: nat, id: nat, p: Place)
    requires t < |s.threads| && GoOn(s, t).Some? && At(GoOn(s, t).value, id, p)
    ensures !Allocates(s, t, id) ==> At(s, id, Before(s, t, p)) && Moved(s, t, Before(s, t, p)) == p
    ensures Allocates(s, t, id) ==> p == With(t) || At(s, id, p)
  {
    match p
    case InDir(_) =>
    case InSlot(_, _) =>
    case With(_) =>
    case Freed(_) =>
  }

  lemma GoKeepsOnePlace(s: Shadow, t: nat)
    requires t < |s.threads| && OnePlace(s) && GoOn(s, t).Some?
    ensures OnePlace(GoOn(s, t).value)
  {
    var s' := GoOn(s, t).value;
    forall id: nat, p | At(s', id, p) ensures id < |s'.allocators| {
      PlacesStem(s, t, id, p);
    }
    forall id: nat, p, q | At(s', id, p) && At(s', id, q) ensures p == q {
      PlacesStem(s, t, id, p);
      PlacesStem(s, t, id, q);
    }
    forall id: nat | id < |s'.allocators| ensures Somewhere(s', id) {
      if id < |s.allocators| {
        assert Somewhere(s, id);
        var p :| At(s, id, p);
        PlacesMove(s, t, id, p);
      } else {
        assert At(s', id, With(t));
      }
    }
  }

  lemma GoKeepsOwn(s: Shadow, t: nat)
    requires t < |s.threads| && OnePlace(s) && Own(s) && GoOn(s, t).Some?
    ensures Own(GoOn(s, t).value)
  {
    var s' := GoOn(s, t).value;
    forall id: nat, u | id < |s'.allocators| && At(s', id, With(u)) ensures s'.allocators[id] == u {
      PlacesStem(s, t, id, With(u));
    }
    forall i | 0 <= i < |s'.freed|
      ensures s'.freed[i].id < |s'.allocators| && s'.allocators[s'.freed[i].id] == s'.freed[i].who
    {
      if i == |s.freed| {
        assert At(s, s'.freed[i].id, With(t));
      }
    }
  }

  lemma GoGrows(s: Shadow, t: nat)
    requires t < |s.threads| && GoOn(s, t).Some?
    ensures Grows(s, GoOn(s, t).value)
  {
  }

  lemma GoKeepsRest(s: Shadow, t: nat)
    requires t < |s.threads| && InRange(s) && Knows(s) && GoOn(s, t).Some?
    ensures InRange(GoOn(s, t).value) && Knows(GoOn(s, t).value)
  {
    var s' := GoOn(s, t).value;
    GoGrows(s, t);
    assert PcOk(s, s.threads[t]);
    forall k | k in s'.slots ensures k.1 < L2_ENTRIES && Reachable(s', k.0) {
      if k in s.slots {
        var l1 :| l1 in s.dir && s.dir[l1] == k.0;
        assert s'.dir[l1] == k.0;
      }
    }
    forall u | 0 <= u < |s'.threads| ensures PcOk(s', s'.threads[u]) {
      if u != t {
        PcOkGrows(s, s', s.threads[u]);
      }
    }
  }

  /** How many steps a call still takes at most. */
  function StepsLeft(pc: Pc): nat {
    match pc
    case Idle => 0
    case LoadTable(_) => 11
    case AllocTable(_) => 10
    case CasTable(_, _) => 9
    case FreeTable(_, _) => 8
    case ReloadTable(_) => 7
    case LoadPage(_, _) => 6
    case AllocPage(_, _) => 5
    case CasPage(_, _, _) => 4
    case FreePage(_, _, _) => 3
    case ReloadPage(_, _) => 2
    case Return(_, _) => 1
  }

  /** A call under way can always go on -- a reload never finds null -- and nothing other threads
      do can keep it from returning: its steps left shrink with each of its own steps and with no
      other. */
  lemma CallsProgress(s: Shadow, t: nat)
    requires Inv(s) && t < |s.threads| && !s.threads[t].Idle?
    ensures GoOn(s, t).Some?
    ensures StepsLeft(GoOn(s, t).value.threads[t]) < StepsLeft(s.threads[t])
    ensures forall u :: 0 <= u < |s.threads| && u != t ==> GoOn(s, t).value.threads[u] == s.threads[u]
  {
    assert PcOk(s, s.threads[t]);
  }

  lemma NextKeepsInv(s: Shadow, e: Event)
    requires Inv(s) && Next(s, e).Some?
    ensures Inv(Next(s, e).value) && Grows(s, Next(s, e).value)
  {
    var s' := Next(s, e).value;
    match e
    case Go(t) =>
      GoKeepsOnePlace(s, t);
      GoKeepsOwn(s, t);
      GoGrows(s, t);
      GoKeepsRest(s, t);
    case Call(t, a) =>
      CallMovesNothing(s, e);
      forall u | 0 <= u < |s'.threads| ensures PcOk(s', s'.threads[u]) {
        if u != t {
          PcOkGrows(s, s', s.threads[u]);
        }
      }
      forall k | k in s'.slots ensures Reachable(s', k.0) {
        assert Reachable(s, k.0);
      }
  }

  lemma CallMovesNothing(s: Shadow, e: Event)
    requires Next(s, e).Some? && e.Call?
    ensures forall id: nat, p :: At(Next(s, e).value, id, p) <==> At(s, id, p)
    ensures OnePlace(s) ==> OnePlace(Next(s, e).value)
    ensures Own(s) ==> Own(Next(s, e).value)
  {
    var s' := Next(s, e).value;
    forall id: nat, p ensures At(s', id, p) <==> At(s, id, p) {
    }
    if OnePlace(s) {
      forall id: nat | id < |s'.allocators| ensures Somewhere(s', id) {
        assert Somewhere(s, id);
        var p :| At(s, id, p);
        assert At(s', id, p);
      }
    }
  }

  // ----- whole runs -----------------------------------------------------------------

  lemma {:induction false} RunInv(threads: nat, es: seq<Event>)
    requires Run(threads, es).Some?
    ensures Inv(Run(threads, es).value)
  {
    if es != [] {
      RunInv(threads, es[..|es| - 1]);
      NextKeepsInv(Run(threads, es[..|es| - 1]).value, es[|es| - 1]);
    } else {
      assert forall id: nat, p :: !At(Start(threads), id, p);
    }
  }

  /** Over every interleaving, a slot that is not null never changes. */
  lemma {:induction false} SlotsAreStable(threads: nat, es: seq<Event>, k: nat)
    requires k <= |es| && Run(threads, es).Some?
    ensures Run(threads, es[..k]).Some?
    ensures Grows(Run(threads, es[..k]).value, Run(threads, es).value)
    decreases |es|
  {
    if k == |es| {
      assert es[..k] == es;
    } else {
      var front := es[..|es| - 1];
      SlotsAreStable(threads, front, k);
      assert front[..k] == es[..k];
      RunInv(threads, front);
      NextKeepsInv(Run(threads, front).value, es[|es| - 1]);
    }
  }

  /** Two calls get the same page exactly when their addresses are in the same shadow page, no
      matter how the threads interleave. */
  lemma SamePage(threads: nat, es: seq<Event>, i: nat, j: nat)
    requires Run(threads, es).Some? && i < |Run(threads, es).value.answers| && j < |Run(threads, es).value.answers|
    ensures var x, y := Run(threads, es).value.answers[i], Run(threads, es).value.answers[j];
            x.page == y.page <==> L1Slot(x.a) == L1Slot(y.a) && L2Slot(x.a) == L2Slot(y.a)
  {
    RunInv(threads, es);
    var s := Run(threads, es).value;
    var x, y := s.answers[i], s.answers[j];
    var tx, ty := s.dir[L1Slot(x.a)], s.dir[L1Slot(y.a)];
    assert At(s, x.page, InSlot(tx, L2Slot(x.a)));
    assert At(s, y.page, InSlot(ty, L2Slot(y.a)));
    assert At(s, tx, InDir(L1Slot(x.a)));
    assert At(s, ty, InDir(L1Slot(y.a)));
  }

  /** What is freed is freed once, by the thread that allocated it; a page some call returned or
      any slot holds is never freed. */
  lemma OnlyLosersAreFreed(threads: nat, es: seq<Event>, i: nat)
    requires Run(threads, es).Some? && i < |Run(threads, es).value.freed|
    ensures var s := Run(threads, es).value; var r := s.freed[i];
            && r.id < |s.allocators| && s.allocators[r.id] == r.who
            && (forall j :: 0 <= j < |s.freed| && s.freed[j].id == r.id ==> i == j)
            && (forall j :: 0 <= j < |s.answers| ==> s.answers[j].page != r.id)
            && (forall k :: k in s.dir ==> s.dir[k] != r.id)
            && (forall k :: k in s.slots ==> s.slots[k] != r.id)
  {
    RunInv(threads, es);
    var s := Run(threads, es).value;
    var r := s.freed[i];
    assert At(s, r.id, Freed(i));
    forall j | 0 <= j < |s.freed| && s.freed[j].id == r.id ensures i == j {
      assert At(s, r.id, Freed(j));
    }
    forall k | k in s.dir ensures s.dir[k] != r.id {
      assert At(s, s.dir[k], InDir(k));
    }
    forall k | k in s.slots ensures s.slots[k] != r.id {
      assert At(s, s.slots[k], InSlot(k.0, k.1));
    }
  }

  /** The destructor's loops come across allocation `id`: as a table at `l1`, or as a page at
      slot `l2` of the table at `l1`. */
  ghost predicate SweptAsTable(s: Shadow, id: nat, l1: nat) {
    l1 < L1_ENTRIES && l1 in s.dir && s.dir[l1] == id
  }

  ghost predicate SweptAsPage(s: Shadow, id: nat, l1: nat, l2: nat) {
    && l1 < L1_ENTRIES && l2 < L2_ENTRIES && l1 in s.dir
    && (s.dir[l1], l2) in s.slots && s.slots[(s.dir[l1], l2)] == id
  }

  /** Once no call is under way, the destructor frees exactly what has not been freed: nothing
      leaks and nothing is freed twice. */
  lemma DestructorFreesTheRest(threads: nat, es: seq<Event>, id: nat)
    requires Run(threads, es).Some? && id < |Run(threads, es).value.allocators|
    requires forall t :: 0 <= t < threads ==> t < |Run(threads, es).value.threads| && Run(threads, es).value.threads[t].Idle?
    ensures var s := Run(threads, es).value;
            (exists i :: 0 <= i < |s.freed| && s.freed[i].id == id)
            <==> !((exists l1 :: SweptAsTable(s, id, l1)) || (exists l1, l2 :: SweptAsPage(s, id, l1, l2)))
    ensures var s := Run(threads, es).value;
            && (forall l1, l1' :: SweptAsTable(s, id, l1) && SweptAsTable(s, id, l1') ==> l1 == l1')
            && (forall l1, l1', l2 :: SweptAsTable(s, id, l1) ==> !SweptAsPage(s, id, l1', l2))
            && (forall l1, l2, l1', l2' :: SweptAsPage(s, id, l1, l2) && SweptAsPage(s, id, l1', l2') ==> l1 == l1' && l2 == l2')
  {
    RunInv(threads, es);
    RunThreads(threads, es);
    var s := Run(threads, es).value;
    assert Somewhere(s, id);
    var p :| At(s, id, p);
    SweptPlaces(s, id);
    match p {
      case InDir(l1) => assert SweptAsTable(s, id, l1);
      case InSlot(table, l2) =>
        assert (table, l2) in s.slots;
        assert Reachable(s, (table, l2).0);
        var l1 :| l1 in s.dir && s.dir[l1] == table;
        assert SweptAsPage(s, id, l1, l2);
      case With(t) =>
      case Freed(i) => assert s.freed[i].id == id;
    }
    forall i | 0 <= i < |s.freed| && s.freed[i].id == id ensures p == Freed(i) {
      assert At(s, id, Freed(i));
    }
  }

  lemma SweptPlaces(s: Shadow, id: nat)
    requires Inv(s)
    ensures forall l1 :: SweptAsTable(s, id, l1) ==> At(s, id, InDir(l1))
    ensures forall l1, l2 :: SweptAsPage(s, id, l1, l2) ==> At(s, id, InSlot(s.dir[l1], l2)) && At(s, s.dir[l1], InDir(l1))
    ensures forall l1, l2, l1', l2' :: SweptAsPage(s, id, l1, l2) && SweptAsPage(s, id, l1', l2') ==> l1 == l1' && l2 == l2'
  {
    forall l1, l2, l1', l2' | SweptAsPage(s, id, l1, l2) && SweptAsPage(s, id, l1', l2') ensures l1 == l1' && l2 == l2' {
      assert At(s, id, InSlot(s.dir[l1], l2)) && At(s, id, InSlot(s.dir[l1'], l2'));
      assert At(s, s.dir[l1], InDir(l1)) && At(s, s.dir[l1'], InDir(l1'));
    }
  }

  lemma {:induction false} RunThreads(threads: nat, es: seq<Event>)
    requires Run(threads, es).Some?
    ensures |Run(threads, es).value.threads| == threads
  {
    if es != [] {
      RunThreads(threads, es[..|es| - 1]);
    }
  }
}

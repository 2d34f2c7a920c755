/** The profile's string table: strings are interned under dense indices, and encoded one after
    the other into one buffer of NUL-terminated strings. */
module StringTables {

  const NUL: char := '\0'

  // ----- interning ------------------------------------------------------------------

  ghost predicate Interned(table: map<string, nat>, max: nat) {
    && (forall s :: s in table ==> table[s] <= max)
    && (forall s, t :: s in table && t in table && table[s] == table[t] ==> s == t)
    && (forall i: nat :: i <= max ==> Used(table, i))
  }

  ghost predicate Used(table: map<string, nat>, i: nat) {
    exists s :: s in table && table[s] == i
  }

  /** The string with index `i` */
  ghost function StringOf(table: map<string, nat>, max: nat, i: nat): string
    requires Interned(table, max) && i <= max
  {
    assert Used(table, i);
    var s :| s in table && table[s] == i;
    s
  }

  // ----- layout ---------------------------------------------------------------------

  /** Where entry `i` starts if entries of the given sizes are put one after the other */
  function Start(sizes: seq<nat>, i: nat): nat
    requires i <= |sizes|
  {
    if i == 0 then 0 else Start(sizes, i - 1) + sizes[i - 1]
  }

  lemma {:induction false} StartsAscend(sizes: seq<nat>, i: nat, j: nat)
    requires i < j <= |sizes|
    ensures Start(sizes, i) + sizes[i] <= Start(sizes, j)
    decreases j
  {
    if i < j - 1 {
      StartsAscend(sizes, i, j - 1);
    }
  }

  lemma {:induction false} StartWithout(sizes: seq<nat>, k: nat, v: nat, i: nat)
    requires k < |sizes| && i <= |sizes|
    ensures Start(sizes[k := v], i) == Start(sizes, i) + if k < i then v - sizes[k] else 0
  {
    if i > 0 {
      StartWithout(sizes, k, v, i - 1);
    }
  }

  lemma {:induction false} NoSizes(n: nat, i: nat)
    requires i <= n
    ensures Start(seq(n, _ => 0), i) == 0
  {
    if i > 0 {
      NoSizes(n, i - 1);
    }
  }

  /** The C string at an offset: up to the first NUL */
  ghost function CString(mem: seq<char>, at: nat): string
    requires at <= |mem|
    decreases |mem| - at
  {
    if at == |mem| || mem[at] == NUL then "" else [mem[at]] + CString(mem, at + 1)
  }

  ghost predicate Holds(mem: seq<char>, at: nat, s: string) {
    at + |s| < |mem| && mem[at..at + |s|] == s && mem[at + |s|] == NUL
  }

  /** What is read back is the string, exactly if it has no NUL in it. */
  lemma {:induction false} ReadBack(mem: seq<char>, at: nat, s: string)
    requires Holds(mem, at, s)
    ensures CString(mem, at) == s <==> NUL !in s
    ensures |CString(mem, at)| <= |s|
    decreases |s|
  {
    if s != "" {
      assert mem[at] == mem[at..at + |s|][0] == s[0];
      if s[0] != NUL {
        assert mem[at + 1..at + 1 + |s[1..]|] == s[1..];
        ReadBack(mem, at + 1, s[1..]);
        assert s == [s[0]] + s[1..];
        if CString(mem, at) == s {
          assert CString(mem, at)[1..] == CString(mem, at + 1);
        }
      }
    }
  }

  class StringTable {
    var table: map<string, nat>
    var maxIndex: nat

    ghost predicate Valid()
      reads this
    {
      Interned(table, maxIndex) && "" in table && table[""] == 0
    }

    constructor ()
      ensures Valid() && table == map["" := 0] && maxIndex == 0
    {
      table, maxIndex := map["" := 0], 0;
      assert Used(map["" := 0], 0) by {
        assert "" in map["" := 0];
      }
    }

    /** `add_string`: a known string keeps its index, a new one gets the next. */
    method AddString(s: string) returns (i: nat)
      requires Valid()
      modifies this
      ensures Valid() && s in table && i == table[s]
      ensures if s in old(table) then table == old(table) && maxIndex == old(maxIndex)
              else table == old(table)[s := old(maxIndex) + 1] && maxIndex == old(maxIndex) + 1
    {
      if s in table {
        return table[s];
      }
      ghost var was, max := table, maxIndex;
      maxIndex := maxIndex + 1;
      table := table[s := maxIndex];
      i := maxIndex;
      forall k: nat | k <= maxIndex ensures Used(table, k) {
        if k <= max {
          assert Used(was, k);
          var t :| t in was && was[t] == k;
          assert t in table && table[t] == k;
        } else {
          assert table[s] == k;
        }
      }
    }

    /** `get_string`: the string with that index, the empty string if there is none */
    method GetString(index: int) returns (s: string)
      requires Valid()
      ensures s == if 0 <= index <= maxIndex then StringOf(table, maxIndex, index) else ""
    {
      if index > maxIndex {
        return "";
      }
      assert 0 <= index ==> Used(table, index);
      var left := table.Keys;
      while left != {}
        invariant left <= table.Keys
        invariant forall t :: t in table && t !in left ==> table[t] != index
        decreases |left|
      {
        var t :| t in left;
        if table[t] == index {
          return t;
        }
        left := left - {t};
      }
      return "";
    }
  }

  // ----- encoding -------------------------------------------------------------------

  ghost predicate Sizes(table: map<string, nat>, sizes: seq<nat>, todo: set<string>) {
    && (forall s :: s in table && s !in todo ==> table[s] < |sizes| && sizes[table[s]] == |s| + 1)
    && (forall s :: s in table && s in todo ==> table[s] < |sizes| && sizes[table[s]] == 0)
  }

  /** The first loop of `encode`: the size of every entry and their sum */
  method Measure(table: map<string, nat>, max: nat) returns (sizes: array<nat>, total: nat)
    requires Interned(table, max)
    ensures fresh(sizes) && sizes.Length == max + 1
    ensures Sizes(table, sizes[..], {}) && total == Start(sizes[..], max + 1)
  {
    var n := max + 1;
    sizes := new nat[n](_ => 0);
    total := 0;
    var todo := table.Keys;
    assert sizes[..] == seq(n, _ => 0);
    NoSizes(n, n);
    while todo != {}
      invariant todo <= table.Keys
      invariant Sizes(table, sizes[..], todo) && total == Start(sizes[..], n)
      decreases |todo|
    {
      var s :| s in todo;
      var size: nat := |s| + 1;
      StartWithout(sizes[..], table[s], size, n);
      ghost var was := sizes[..];
      sizes[table[s]] := size;
      assert sizes[..] == was[table[s] := size];
      total := total + size;
      todo := todo - {s};
    }
  }

  ghost predicate Placed(starts: seq<nat>, sizes: seq<nat>, n: nat)
    requires n <= |sizes|
  {
    n <= |starts| && forall i :: 0 <= i < n ==> starts[i] == Start(sizes, i)
  }

  lemma PlacedNext(starts: seq<nat>, sizes: seq<nat>, i: nat)
    requires i < |sizes| && i < |starts| && Placed(starts, sizes, i)
    ensures Placed(starts[i := Start(sizes, i)], sizes, i + 1)
    ensures Start(sizes, i + 1) == Start(sizes, i) + sizes[i]
  {
    assert i + 1 - 1 == i;
  }

  /** The second loop: where every entry starts */
  method Place(sizes: array<nat>) returns (starts: array<nat>)
    ensures fresh(starts) && starts.Length == sizes.Length && Placed(starts[..], sizes[..], sizes.Length)
  {
    starts := new nat[sizes.Length](_ => 0);
    ghost var all := sizes[..];
    var cur := 0;
    for i := 0 to sizes.Length
      invariant sizes[..] == all && cur == Start(all, i) && Placed(starts[..], all, i)
    {
      PlacedNext(starts[..], all, i);
      ghost var was := starts[..];
      starts[i] := cur;
      assert starts[..] == was[i := cur];
      cur := cur + sizes[i];
    }
  }

  /** `memcpy` of a string with its terminating NUL */
  method CopyString(mem: array<char>, at: nat, s: string)
    requires at + |s| < mem.Length
    modifies mem
    ensures mem[..] == old(mem[..at]) + s + [NUL] + old(mem[at + |s| + 1..])
  {
    ghost var was := mem[..];
    assert was == was[..at] + s[..0] + was[at..];
    for i := 0 to |s|
      invariant mem[..] == was[..at] + s[..i] + was[at + i..]
    {
      CopiedNext(was, s, at, i);
      mem[at + i] := s[i];
    }
    assert s[..|s|] == s;
    mem[at + |s|] := NUL;
  }

  lemma CopiedNext(was: seq<char>, s: string, at: nat, i: nat)
    requires i < |s| && at + i < |was|
    ensures (was[..at] + s[..i] + was[at + i..])[at + i := s[i]] == was[..at] + s[..i + 1] + was[at + i + 1..]
  {
  }

  lemma CopiedHere(was: seq<char>, now: seq<char>, at: nat, s: string)
    requires at + |s| < |was| && now == was[..at] + s + [NUL] + was[at + |s| + 1..]
    ensures |now| == |was| && Holds(now, at, s)
  {
    assert now[at..at + |s|] == s;
  }

  lemma CopiedElsewhere(was: seq<char>, now: seq<char>, at: nat, s: string, other: nat, t: string)
    requires at + |s| < |was| && now == was[..at] + s + [NUL] + was[at + |s| + 1..]
    requires Holds(was, other, t) && (other + |t| < at || at + |s| < other)
    ensures Holds(now, other, t)
  {
    assert forall k :: other <= k <= other + |t| ==> now[k] == was[k];
    assert now[other..other + |t|] == was[other..other + |t|];
  }

  /** All entries but those in `todo` are in place. */
  ghost predicate Encoded(table: map<string, nat>, starts: seq<nat>, mem: seq<char>, todo: set<string>) {
    forall s :: s in table && s !in todo ==> table[s] < |starts| && Holds(mem, starts[table[s]], s)
  }

  ghost predicate Tiled(table: map<string, nat>, sizes: seq<nat>, starts: seq<nat>, total: nat) {
    && Sizes(table, sizes, {}) && |starts| == |sizes| && total == Start(sizes, |sizes|)
    && (forall i :: 0 <= i < |sizes| ==> starts[i] == Start(sizes, i))
  }

  lemma Apart(table: map<string, nat>, sizes: seq<nat>, starts: seq<nat>, total: nat, s: string, t: string)
    requires Tiled(table, sizes, starts, total) && s in table && t in table && table[s] != table[t]
    ensures table[s] < |starts| && table[t] < |starts| && starts[table[s]] + |s| < total
    ensures starts[table[t]] + |t| < starts[table[s]] || starts[table[s]] + |s| < starts[table[t]]
  {
    var i, j := table[s], table[t];
    if i < j {
      StartsAscend(sizes, i, j);
    } else {
      StartsAscend(sizes, j, i);
    }
    StartsAscend(sizes, i, |sizes|);
  }

  lemma InBounds(table: map<string, nat>, sizes: seq<nat>, starts: seq<nat>, total: nat, s: string)
    requires Tiled(table, sizes, starts, total) && s in table
    ensures table[s] < |starts| && starts[table[s]] + |s| < total
  {
    StartsAscend(sizes, table[s], |sizes|);
  }

  lemma CopiedOne(table: map<string, nat>, max: nat, sizes: seq<nat>, starts: seq<nat>, total: nat,
                  was: seq<char>, now: seq<char>, todo: set<string>, s: string)
    requires Interned(table, max) && Tiled(table, sizes, starts, total) && s in table && |was| == total
    requires Encoded(table, starts, was, todo)
    requires starts[table[s]] + |s| < total && now == was[..starts[table[s]]] + s + [NUL] + was[starts[table[s]] + |s| + 1..]
    ensures Encoded(table, starts, now, todo - {s})
  {
    CopiedHere(was, now, starts[table[s]], s);
    forall t | t in table && t !in todo - {s} ensures table[t] < |starts| && Holds(now, starts[table[t]], t) {
      if t != s {
        Apart(table, sizes, starts, total, s, t);
        CopiedElsewhere(was, now, starts[table[s]], s, starts[table[t]], t);
      }
    }
  }

  /** `encode`: the entries fill one buffer without gap or overlap, in the order of their indices,
      and entry `i` starts with string `i` and a NUL. */
  method Encode(table: map<string, nat>, max: nat) returns (starts: array<nat>, mem: array<char>)
    requires Interned(table, max)
    ensures starts.Length == max + 1
    ensures forall i: nat :: i <= max ==> Holds(mem[..], starts[i], StringOf(table, max, i))
    ensures starts[0] == 0 && starts[max] + |StringOf(table, max, max)| + 1 == mem.Length
    ensures forall i: nat :: i < max ==> starts[i + 1] == starts[i] + |StringOf(table, max, i)| + 1
  {
    var sizes, total := Measure(table, max);
    starts := Place(sizes);
    mem := new char[total](_ => NUL);
    assert Tiled(table, sizes[..], starts[..], total);
    CopyAll(table, max, sizes[..], starts, mem, total);
    forall i: nat | i <= max ensures sizes[i] == |StringOf(table, max, i)| + 1 && Holds(mem[..], starts[i], StringOf(table, max, i)) {
      var s := StringOf(table, max, i);
      assert s in table && table[s] == i;
    }
    forall i: nat | i < max ensures starts[i + 1] == starts[i] + |StringOf(table, max, i)| + 1 {
      assert Start(sizes[..], i + 1) == Start(sizes[..], i) + sizes[..][i];
    }
    assert Start(sizes[..], max + 1) == Start(sizes[..], max) + sizes[..][max];
  }

  /** The third loop: the strings, in any order */
  method CopyAll(table: map<string, nat>, max: nat, ghost sizes: seq<nat>, starts: array<nat>, mem: array<char>, ghost total: nat)
    requires Interned(table, max) && Tiled(table, sizes, starts[..], total) && mem.Length == total
    modifies mem
    ensures Encoded(table, starts[..], mem[..], {})
  {
    var todo := table.Keys;
    ghost var at := starts[..];
    while todo != {}
      invariant todo <= table.Keys && starts[..] == at
      invariant Encoded(table, at, mem[..], todo)
      decreases |todo|
    {
      var s :| s in todo;
      InBounds(table, sizes, at, total, s);
      ghost var was := mem[..];
      CopyString(mem, starts[table[s]], s);
      CopiedOne(table, max, sizes, at, total, was, mem[..], todo, s);
      todo := todo - {s};
    }
  }
}

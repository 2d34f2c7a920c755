/** Byte counts kept per pair of contexts, under a 64-bit key. */
module PairCounts {

  const WORD32: nat := 0x1_0000_0000

  /** A context handle as the profilers store it: 32 bits. */
  type Handle = h: nat | h < WORD32

  /** `MAKE_CONTEXT_PAIR`: the old context in the high half, the new one in the low half */
  function MakePair(dead: Handle, kill: Handle): nat { dead * WORD32 + kill }

  function DecodeDead(key: nat): Handle { key / WORD32 % WORD32 }

  function DecodeKill(key: nat): Handle { key % WORD32 }

  /** Taking a key apart gives back the pair it was made of, so different pairs have different
      keys; every 64-bit key is the key of its parts; and the old context is the high half. */
  lemma PairRoundTrip(dead: Handle, kill: Handle, key: nat)
    requires key < WORD32 * WORD32
    ensures DecodeDead(MakePair(dead, kill)) == dead && DecodeKill(MakePair(dead, kill)) == kill
    ensures MakePair(DecodeDead(key), DecodeKill(key)) == key
    ensures MakePair(dead, kill) < WORD32 * WORD32
    ensures MakePair(dead, kill) / 0x1_0000_0000 == dead && MakePair(dead, kill) % 0x1_0000_0000 == kill
  {
    assert MakePair(dead, kill) / WORD32 == dead;
  }

  type Table = map<nat, nat>

  function Count<K>(m: map<K, nat>, key: K): nat {
    if key in m then m[key] else 0
  }

  /** Adds to the count of a key, which starts at zero. */
  function Add<K>(m: map<K, nat>, key: K, n: nat): map<K, nat> { m[key := Count(m, key) + n] }

  /** The sum of all counts. */
  ghost function Total<K>(m: map<K, nat>): nat
    decreases |m|
  {
    if m == map[] then 0
    else
      var key :| key in m;
      m[key] + Total(m - {key})
  }

  /** The sum does not depend on the order of summation. */
  lemma {:induction false} TotalSplit<K>(m: map<K, nat>, key: K)
    requires key in m
    ensures Total(m) == m[key] + Total(m - {key})
    decreases |m|
  {
    var k :| k in m && Total(m) == m[k] + Total(m - {k});
    if k != key {
      TotalSplit(m - {k}, key);
      TotalSplit(m - {key}, k);
      assert m - {k} - {key} == m - {key} - {k};
    }
  }

  /** Adding `n` to one count adds `n` to that count, to no other, and to the sum. */
  lemma AddTotal<K>(m: map<K, nat>, key: K, n: nat)
    ensures Total(Add(m, key, n)) == Total(m) + n
    ensures Count(Add(m, key, n), key) == Count(m, key) + n
    ensures forall other :: other != key ==> Count(Add(m, key, n), other) == Count(m, other)
  {
    var m' := Add(m, key, n);
    TotalSplit(m', key);
    assert m' - {key} == m - {key};
    if key in m {
      TotalSplit(m, key);
    } else {
      assert m - {key} == m;
    }
  }

  lemma AddTwice(m: Table, key: nat, n: nat, k: nat)
    ensures Add(Add(m, key, n), key, k) == Add(m, key, n + k)
  {
  }
}

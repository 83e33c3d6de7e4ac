/**
  PHP's ordered arrays with string keys, as association lists.  A key keeps
  the position of its first insertion: writing to an existing key replaces
  the value in place, writing to a new key appends it.
 */
module OrderedMap {
  import opened Wrappers

  /** The keys in iteration order. */
  function Keys<K, V>(kvs: seq<(K, V)>): (r: seq<K>)
  {
    seq(|kvs|, i requires 0 <= i < |kvs| => kvs[i].0)
  }

  /** No key occurs twice, which holds of every PHP array. */
  predicate KeysUnique<K(==), V>(kvs: seq<(K, V)>)
  {
    forall i, j | 0 <= i < j < |kvs| :: kvs[i].0 != kvs[j].0
  }

  /** The position of the first entry with key `k`, or `|kvs|` when there is none. */
  function IndexOfKey<K(==), V>(kvs: seq<(K, V)>, k: K): (i: nat)
    ensures i <= |kvs|
    ensures forall j | 0 <= j < i :: kvs[j].0 != k
    ensures i < |kvs| ==> kvs[i].0 == k
    decreases |kvs|
  {
    if |kvs| == 0 then 0
    else if kvs[0].0 == k then 0
    else 1 + IndexOfKey(kvs[1..], k)
  }

  /** `isset($a[$k]) ? $a[$k] : null` for an array whose values are never null. */
  function Lookup<K(==), V>(kvs: seq<(K, V)>, k: K): (r: Option<V>)
    ensures r.None? <==> k !in Keys(kvs)
    ensures forall j | 0 <= j < |kvs| && KeysUnique(kvs) :: kvs[j].0 == k ==> r == Some(kvs[j].1)
  {
    var i := IndexOfKey(kvs, k);
    assert i < |kvs| ==> Keys(kvs)[i] == k;
    if i < |kvs| then Some(kvs[i].1) else None
  }

  /**
    `$a[$k] = $v`: afterwards `k` maps to `v` and every other key to what it
    mapped to before; an existing key stays where it was and a new key goes
    to the end, so no other entry moves.
   */
  function Put<K(==, !new), V>(kvs: seq<(K, V)>, k: K, v: V): (r: seq<(K, V)>)
    ensures Lookup(r, k) == Some(v)
    ensures forall k' | k' != k :: Lookup(r, k') == Lookup(kvs, k')
    ensures k in Keys(kvs) ==> Keys(r) == Keys(kvs)
    ensures k !in Keys(kvs) ==> Keys(r) == Keys(kvs) + [k]
    ensures forall j | 0 <= j < |kvs| && kvs[j].0 != k :: r[j] == kvs[j]
    ensures KeysUnique(kvs) ==> KeysUnique(r)
  {
    var i := IndexOfKey(kvs, k);
    if i < |kvs| then
      var r := kvs[i := (k, v)];
      assert Keys(r) == Keys(kvs);
      assert IndexOfKey(r, k) == i by { IndexOfKeyFirst(r, k, i); }
      forall k' | k' != k ensures Lookup(r, k') == Lookup(kvs, k') {
        var j := IndexOfKey(kvs, k');
        IndexOfKeyFirst(r, k', j);
      }
      r
    else
      var r := kvs + [(k, v)];
      assert Keys(r) == Keys(kvs) + [k];
      assert IndexOfKey(r, k) == i by { IndexOfKeyFirst(r, k, i); }
      forall k' | k' != k ensures Lookup(r, k') == Lookup(kvs, k') {
        var j := IndexOfKey(kvs, k');
        if j < |kvs| {
          IndexOfKeyFirst(r, k', j);
        } else {
          IndexOfKeyFirst(r, k', |r|);
        }
      }
      r
  }

  /** The first occurrence of a key is found wherever it is. */
  lemma {:induction false} IndexOfKeyFirst<K, V>(kvs: seq<(K, V)>, k: K, i: nat)
    requires i <= |kvs|
    requires forall j | 0 <= j < i :: kvs[j].0 != k
    requires i < |kvs| ==> kvs[i].0 == k
    ensures IndexOfKey(kvs, k) == i
    decreases |kvs|
  {
    if |kvs| > 0 && kvs[0].0 != k {
      IndexOfKeyFirst(kvs[1..], k, i - 1);
    }
  }

  /** Writing the same key twice is the same as writing only the second value. */
  lemma PutPut<K(!new), V>(kvs: seq<(K, V)>, k: K, a: V, b: V)
    ensures Put(Put(kvs, k, a), k, b) == Put(kvs, k, b)
  {
    var i := IndexOfKey(kvs, k);
    var once := Put(kvs, k, a);
    IndexOfKeyFirst(once, k, i);
  }

  /** Writing a key that is not there appends one entry at the end. */
  lemma PutNew<K(!new), V>(kvs: seq<(K, V)>, k: K, v: V)
    requires k !in Keys(kvs)
    ensures Put(kvs, k, v) == kvs + [(k, v)]
  {
    assert forall j | 0 <= j < |kvs| :: Keys(kvs)[j] == kvs[j].0;
  }

  /** After a write the key occurs exactly once in a well-formed map, at the position it first had. */
  lemma PutSingleEntry<K(!new), V>(kvs: seq<(K, V)>, k: K, v: V)
    requires KeysUnique(kvs)
    ensures var r := Put(kvs, k, v);
      && (forall j | 0 <= j < |r| && r[j].0 == k :: j == IndexOfKey(kvs, k) && r[j].1 == v)
  {
    var r := Put(kvs, k, v);
    var i := IndexOfKey(kvs, k);
    forall j | 0 <= j < |r| && r[j].0 == k ensures j == i && r[j].1 == v {
      assert Keys(r)[j] == k;
      if i < |kvs| {
        assert r[i].0 == k;
      }
    }
  }

  /** `array_walk` with a value-rewriting callback: same keys in the same order, each value transformed. */
  function MapValues<K, V, W>(kvs: seq<(K, V)>, f: V -> W): (r: seq<(K, W)>)
    ensures Keys(r) == Keys(kvs)
    ensures forall j | 0 <= j < |kvs| :: r[j].1 == f(kvs[j].1)
  {
    seq(|kvs|, i requires 0 <= i < |kvs| => (kvs[i].0, f(kvs[i].1)))
  }

  /** Looking up a transformed map is transforming the looked-up value. */
  lemma LookupMapValues<K, V, W>(kvs: seq<(K, V)>, f: V -> W, k: K)
    ensures Lookup(MapValues(kvs, f), k) == if k in Keys(kvs) then Some(f(Lookup(kvs, k).value)) else None
  {
    var r := MapValues(kvs, f);
    var i := IndexOfKey(kvs, k);
    assert forall j | 0 <= j < |kvs| :: r[j].0 == Keys(r)[j] == kvs[j].0;
    IndexOfKeyFirst(r, k, i);
  }
}

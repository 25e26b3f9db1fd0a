/**
 * The in-memory cache: a dict in insertion order with a maximum size. When
 * the cache is full, a write first evicts the oldest entry, whether or not
 * the key written is already present.
 */
module CacheManager {
  import opened Base
  import opened Dicts

  datatype Cache<V> = Cache(entries: Dict<string, V>, maxSize: int)

  /** The entries form a dict: no key twice. */
  predicate Valid<V>(c: Cache<V>) {
    UniqueKeys(c.entries)
  }

  /** A new, empty cache. */
  function NewCache<V>(maxSize: int := 1000): (c: Cache<V>)
    ensures Valid(c) && |c.entries| == 0 && c.maxSize == maxSize
  {
    Cache([], maxSize)
  }

  /** `get`: the stored value, or `None` for a missing key. */
  function Lookup<V>(c: Cache<V>, key: string): (r: Option<V>)
    ensures r.Some? <==> HasKey(c.entries, key)
  {
    Get(c.entries, key)
  }

  predicate Full<V>(c: Cache<V>) {
    |c.entries| >= c.maxSize
  }

  /** `set`: evict the oldest entry when full, then assign. A full cache
      with no entries (a size limit of zero or less) has no oldest entry to
      evict, which is an error (`None`). */
  function Set<V>(c: Cache<V>, key: string, value: V): (r: Option<Cache<V>>)
    requires Valid(c)
    ensures r.None? <==> Full(c) && |c.entries| == 0
    ensures c.maxSize >= 1 && |c.entries| <= c.maxSize ==> r.Some? && |r.value.entries| <= c.maxSize
    ensures r.Some? ==> Valid(r.value) && r.value.maxSize == c.maxSize
    ensures r.Some? ==> Lookup(r.value, key) == Some(value)
    ensures r.Some? && !Full(c) ==> forall k :: k != key ==> Lookup(r.value, k) == Lookup(c, k)
    ensures r.Some? && Full(c) ==> forall k :: k != key ==>
              Lookup(r.value, k) == if k == c.entries[0].0 then None else Lookup(c, k)
    ensures r.Some? && !Full(c) ==>
              Keys(r.value.entries) == Keys(c.entries) + (if HasKey(c.entries, key) then [] else [key])
    ensures r.Some? && Full(c) ==>
              Keys(r.value.entries) == Keys(c.entries)[1..] + (if HasKey(c.entries[1..], key) then [] else [key])
  {
    if Full(c) then
      if |c.entries| == 0 then None
      else
        assert Keys(EvictOldest(c.entries)) == Keys(c.entries)[1..];
        PutKeys(EvictOldest(c.entries), key, value);
        Some(Assign(Cache(EvictOldest(c.entries), c.maxSize), key, value))
    else
      PutKeys(c.entries, key, value);
      Some(Assign(c, key, value))
  }

  /** The entries without the oldest one. */
  function EvictOldest<V>(d: Dict<string, V>): (r: Dict<string, V>)
    requires UniqueKeys(d) && |d| > 0
    ensures UniqueKeys(r) && |r| == |d| - 1
    ensures forall k :: k != d[0].0 ==> Get(r, k) == Get(d, k)
    ensures Get(r, d[0].0) == None
    ensures r == d[1..]
  {
    var rest := d[1..];
    assert forall k :: k != d[0].0 ==> Get(rest, k) == Get(d, k) by {
      assert d == [d[0]] + rest;
    }
    assert !HasKey(rest, d[0].0);
    rest
  }

  /** `self.cache[key] = value` on a valid cache. */
  function Assign<V>(c: Cache<V>, key: string, value: V): (r: Cache<V>)
    requires Valid(c)
    ensures Valid(r) && r.maxSize == c.maxSize
    ensures |c.entries| <= |r.entries| <= |c.entries| + 1
    ensures Lookup(r, key) == Some(value)
    ensures forall k :: k != key ==> Lookup(r, k) == Lookup(c, k)
    ensures forall i :: 0 <= i < |c.entries| ==> r.entries[i].0 == c.entries[i].0
    ensures |r.entries| > |c.entries| ==> r.entries[|c.entries|] == (key, value)
  {
    PutUnique(c.entries, key, value);
    Cache(Put(c.entries, key, value), c.maxSize)
  }

  /** Overwriting a key of a full cache still evicts the oldest entry, so the
      cache shrinks by one when that key was not the oldest. */
  lemma FullOverwriteShrinks<V>(c: Cache<V>, key: string, value: V)
    requires Valid(c) && Full(c) && |c.entries| > 0
    requires HasKey(c.entries, key) && key != c.entries[0].0
    ensures |Set(c, key, value).value.entries| == |c.entries| - 1
  {
    var rest := c.entries[1..];
    var i :| 0 <= i < |c.entries| && c.entries[i].0 == key;
    assert rest[i - 1].0 == key;
  }

  /** `delete`: removes the key; a missing key is no change at all. */
  function Delete<V>(c: Cache<V>, key: string): (r: Cache<V>)
    requires Valid(c)
    ensures Valid(r) && r.maxSize == c.maxSize
    ensures Lookup(r, key) == None
    ensures forall k :: k != key ==> Lookup(r, k) == Lookup(c, k)
    ensures !HasKey(c.entries, key) ==> r == c
    ensures |r.entries| <= |c.entries|
  {
    Cache(Remove(c.entries, key), c.maxSize)
  }

  /** `clear`. */
  function Clear<V>(c: Cache<V>): (r: Cache<V>)
    ensures Valid(r) && r.maxSize == c.maxSize
    ensures forall k :: Lookup(r, k) == None
  {
    Cache([], c.maxSize)
  }

  /** A call on the cache. */
  datatype Op<V> = SetOp(key: string, value: V) | DeleteOp(key: string) | ClearOp

  /** A run of calls; `None` once a call fails. */
  function Run<V>(c: Cache<V>, ops: seq<Op<V>>): (r: Option<Cache<V>>)
    requires Valid(c)
    ensures r.Some? ==> Valid(r.value) && r.value.maxSize == c.maxSize
    decreases |ops|
  {
    if |ops| == 0 then Some(c)
    else
      var next :- match ops[0]
        case SetOp(k, v) => Set(c, k, v)
        case DeleteOp(k) => Some(Delete(c, k))
        case ClearOp => Some(Clear(c));
      Run(next, ops[1..])
  }

  /** With a positive limit, no run of calls fails or takes the cache over
      its limit. */
  lemma {:induction false} RunBounded<V>(c: Cache<V>, ops: seq<Op<V>>)
    requires Valid(c) && c.maxSize >= 1 && |c.entries| <= c.maxSize
    ensures Run(c, ops).Some?
    ensures |Run(c, ops).value.entries| <= c.maxSize
    decreases |ops|
  {
    if |ops| > 0 {
      match ops[0]
      case SetOp(k, v) =>
        RunBounded(Set(c, k, v).value, ops[1..]);
      case DeleteOp(k) =>
        RunBounded(Delete(c, k), ops[1..]);
      case ClearOp =>
        RunBounded(Clear(c), ops[1..]);
    }
  }
  /** The writes of `ks` in order, each with the value `v`. */
  function Writes<V>(ks: seq<string>, v: V): (ops: seq<Op<V>>)
    ensures |ops| == |ks|
    ensures forall i :: 0 <= i < |ks| ==> ops[i] == SetOp(ks[i], v)
  {
    seq(|ks|, i requires 0 <= i < |ks| => SetOp(ks[i], v))
  }

  /** The last `n` elements of `s`, or all of them when there are fewer. */
  function Last<T>(n: nat, s: seq<T>): (r: seq<T>)
    ensures |r| == if |s| <= n then |s| else n
  {
    if |s| <= n then s else s[|s| - n..]
  }

  lemma LastOfSuffix<T>(n: nat, s: seq<T>, a: nat)
    requires a + n <= |s|
    ensures Last(n, s[a..]) == Last(n, s)
  {
    if |s[a..]| > n {
      assert s[a..][|s| - a - n..] == s[|s| - n..];
    }
  }

  /** Cutting to the last `n` before appending does not change the last `n`
      after it. */
  lemma LastLast<T>(n: nat, x: seq<T>, y: seq<T>)
    ensures Last(n, Last(n, x) + y) == Last(n, x + y)
  {
    if |x| > n {
      assert x[|x| - n..] + y == (x + y)[|x| - n..];
      LastOfSuffix(n, x + y, |x| - n);
    }
  }

  lemma AbsentFromTail<V>(d: Dict<string, V>, k: string)
    requires |d| > 0 && !HasKey(d, k)
    ensures !HasKey(d[1..], k)
  {
    forall i | 0 <= i < |d[1..]| ensures d[1..][i].0 != k {
      assert d[1..][i] == d[i + 1];
    }
  }

  lemma LastSnoc<T>(n: nat, s: seq<T>, x: T)
    requires 1 <= n && |s| <= n
    ensures Last(n, s + [x]) == if |s| == n then s[1..] + [x] else s + [x]
  {
    if |s| == n {
      assert (s + [x])[1..] == s[1..] + [x];
    }
  }

  /** Writing a key that is not cached leaves the newest `maxSize` keys. */
  lemma SetNewKeyLast<V>(c: Cache<V>, k: string, v: V)
    requires Valid(c) && c.maxSize >= 1 && |c.entries| <= c.maxSize
    requires !HasKey(c.entries, k)
    ensures Set(c, k, v).Some?
    ensures Keys(Set(c, k, v).value.entries) == Last(c.maxSize, Keys(c.entries) + [k])
  {
    LastSnoc(c.maxSize, Keys(c.entries), k);
    if Full(c) {
      AbsentFromTail(c.entries, k);
    }
  }

  /** A key that is neither cached nor written stays out of the cache. */
  lemma SetKeepsAbsent<V>(c: Cache<V>, k: string, v: V, other: string)
    requires Valid(c) && c.maxSize >= 1 && |c.entries| <= c.maxSize
    requires other != k && !HasKey(c.entries, other)
    ensures Set(c, k, v).Some? && !HasKey(Set(c, k, v).value.entries, other)
  {
    assert Lookup(Set(c, k, v).value, other).None?;
  }

  /** A run of writes is its first write followed by the rest. */
  lemma RunWritesStep<V>(c: Cache<V>, ks: seq<string>, v: V)
    requires Valid(c) && |ks| > 0 && Set(c, ks[0], v).Some?
    ensures Run(c, Writes(ks, v)) == Run(Set(c, ks[0], v).value, Writes(ks[1..], v))
  {
    RunSetStep(c, Writes(ks, v));
    WritesTail(ks, v);
  }

  lemma WritesTail<V>(ks: seq<string>, v: V)
    requires |ks| > 0
    ensures Writes(ks, v)[0] == SetOp(ks[0], v)
    ensures Writes(ks, v)[1..] == Writes(ks[1..], v)
  {
    var ops, tail := Writes(ks, v), Writes(ks[1..], v);
    forall i | 0 <= i < |tail| ensures ops[1..][i] == tail[i] {
      assert ops[1..][i] == ops[i + 1];
    }
  }

  lemma RunSetStep<V>(c: Cache<V>, ops: seq<Op<V>>)
    requires Valid(c) && |ops| > 0 && ops[0].SetOp? && Set(c, ops[0].key, ops[0].value).Some?
    ensures Run(c, ops) == Run(Set(c, ops[0].key, ops[0].value).value, ops[1..])
  {
  }

  lemma LastCons<T>(n: nat, s: seq<T>, xs: seq<T>)
    requires |xs| > 0
    ensures Last(n, Last(n, s + [xs[0]]) + xs[1..]) == Last(n, s + xs)
  {
    LastLast(n, s + [xs[0]], xs[1..]);
    assert s + [xs[0]] + xs[1..] == s + xs;
  }

  /** First in, first out: writing keys that are not yet cached, one after
      another, into a cache with a positive limit leaves exactly the newest
      `maxSize` of the old and new keys, in the order they were written. */
  lemma {:induction false} KeepsNewestWrites<V>(c: Cache<V>, ks: seq<string>, v: V)
    requires Valid(c) && c.maxSize >= 1 && |c.entries| <= c.maxSize
    requires forall i, j :: 0 <= i < j < |ks| ==> ks[i] != ks[j]
    requires forall i :: 0 <= i < |ks| ==> !HasKey(c.entries, ks[i])
    ensures Run(c, Writes(ks, v)).Some?
    ensures Keys(Run(c, Writes(ks, v)).value.entries) == Last(c.maxSize, Keys(c.entries) + ks)
    decreases |ks|
  {
    if |ks| == 0 {
      assert Keys(c.entries) + ks == Keys(c.entries);
    } else {
      var n, k, rest := c.maxSize, ks[0], ks[1..];
      var c' := Set(c, k, v).value;
      assert Keys(c'.entries) == Last(n, Keys(c.entries) + [k]) by {
        SetNewKeyLast(c, k, v);
      }
      assert Run(c, Writes(ks, v)) == Run(c', Writes(rest, v)) by {
        RunWritesStep(c, ks, v);
      }
      var r' := Run(c', Writes(rest, v));
      assert r'.Some? && Keys(r'.value.entries) == Last(n, Keys(c'.entries) + rest) by {
        forall i | 0 <= i < |rest| ensures !HasKey(c'.entries, rest[i]) {
          SetKeepsAbsent(c, k, v, ks[i + 1]);
        }
        KeepsNewestWrites(c', rest, v);
      }
      assert Last(n, Last(n, Keys(c.entries) + [k]) + rest) == Last(n, Keys(c.entries) + ks) by {
        LastCons(n, Keys(c.entries), ks);
      }
    }
  }
}

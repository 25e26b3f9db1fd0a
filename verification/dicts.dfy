/**
 * Python dictionaries as association lists in insertion order. Assigning to a
 * present key keeps its position; a new key goes to the end; iteration and
 * `next(iter(d))` follow this order.
 */
module Dicts {
  import opened Base

  type Dict<K, V> = seq<(K, V)>

  predicate HasKey<K(==), V>(d: Dict<K, V>, k: K) {
    exists i :: 0 <= i < |d| && d[i].0 == k
  }

  /** No key appears twice, as in every Python dict. */
  predicate UniqueKeys<K(==), V>(d: Dict<K, V>) {
    forall i, j :: 0 <= i < j < |d| ==> d[i].0 != d[j].0
  }

  /** `d.get(k)`. */
  function Get<K(==), V>(d: Dict<K, V>, k: K): (r: Option<V>)
    ensures r.Some? <==> HasKey(d, k)
    ensures r.Some? ==> exists i :: 0 <= i < |d| && d[i] == (k, r.value)
  {
    if |d| == 0 then None
    else if d[0].0 == k then Some(d[0].1)
    else Get(d[1..], k)
  }

  function Keys<K, V>(d: Dict<K, V>): (r: seq<K>)
    ensures |r| == |d|
    ensures forall i :: 0 <= i < |d| ==> r[i] == d[i].0
  {
    seq(|d|, i requires 0 <= i < |d| => d[i].0)
  }

  function Values<K, V>(d: Dict<K, V>): (r: seq<V>)
    ensures |r| == |d|
    ensures forall i :: 0 <= i < |d| ==> r[i] == d[i].1
  {
    seq(|d|, i requires 0 <= i < |d| => d[i].1)
  }

  /** `d[k] = v`: replaces the value in place, or appends a new entry. */
  function Put<K(==,!new), V>(d: Dict<K, V>, k: K, v: V): (r: Dict<K, V>)
    ensures |r| == if HasKey(d, k) then |d| else |d| + 1
    ensures forall i :: 0 <= i < |d| ==> r[i].0 == d[i].0
    ensures |r| > |d| ==> r[|d|] == (k, v)
    ensures Get(r, k) == Some(v)
    ensures forall k' :: k' != k ==> Get(r, k') == Get(d, k')
  {
    if |d| == 0 then [(k, v)]
    else if d[0].0 == k then
      assert HasKey(d, k);
      [(k, v)] + d[1..]
    else
      assert HasKey(d, k) <==> HasKey(d[1..], k) by {
        if HasKey(d, k) {
          var i :| 0 <= i < |d| && d[i].0 == k;
          assert d[1..][i - 1].0 == k;
        }
      }
      [d[0]] + Put(d[1..], k, v)
  }

  /** Assignment keeps the order of the keys and adds a new key last. */
  lemma PutKeys<K(!new), V>(d: Dict<K, V>, k: K, v: V)
    ensures Keys(Put(d, k, v)) == Keys(d) + (if HasKey(d, k) then [] else [k])
  {
    var r, e := Put(d, k, v), if HasKey(d, k) then [] else [k];
    assert |Keys(r)| == |Keys(d) + e|;
    forall i | 0 <= i < |Keys(r)| ensures Keys(r)[i] == (Keys(d) + e)[i] {
      if i < |d| {
        assert Keys(r)[i] == r[i].0 == d[i].0;
      } else {
        assert r[|d|] == (k, v);
      }
    }
  }

  /** Assignment keeps the keys of a dict distinct. */
  lemma PutUnique<K(!new), V>(d: Dict<K, V>, k: K, v: V)
    requires UniqueKeys(d)
    ensures UniqueKeys(Put(d, k, v))
  {
    var r := Put(d, k, v);
    if |r| > |d| {
      assert !HasKey(d, k);
      forall i, j | 0 <= i < j < |r|
        ensures r[i].0 != r[j].0
      {
        if j == |d| {
          assert d[i].0 != k;
        }
      }
    }
  }

  /** `d.pop(k, None)`: removes the entry for `k`, if any, keeping the order
      of the others. */
  function Remove<K(==,!new), V>(d: Dict<K, V>, k: K): (r: Dict<K, V>)
    requires UniqueKeys(d)
    ensures |r| == if HasKey(d, k) then |d| - 1 else |d|
    ensures Get(r, k) == None
    ensures forall k' :: k' != k ==> Get(r, k') == Get(d, k')
    ensures UniqueKeys(r)
    ensures !HasKey(d, k) ==> r == d
  {
    if |d| == 0 then []
    else if d[0].0 == k then
      assert !HasKey(d[1..], k);
      d[1..]
    else
      var r' := Remove(d[1..], k);
      assert !HasKey(d[1..], d[0].0);
      assert Get(r', d[0].0) == None;
      assert !HasKey(r', d[0].0);
      [d[0]] + r'
  }

  /** `for k, v in kvs: d[k] = v`. */
  function PutAll<K(==,!new), V>(d: Dict<K, V>, kvs: seq<(K, V)>): Dict<K, V>
    decreases |kvs|
  {
    if |kvs| == 0 then d else PutAll(Put(d, kvs[0].0, kvs[0].1), kvs[1..])
  }

  /** A key that is never assigned keeps its value. */
  lemma {:induction false} PutAllOthers<K(!new), V>(d: Dict<K, V>, kvs: seq<(K, V)>, k: K)
    requires forall i :: 0 <= i < |kvs| ==> kvs[i].0 != k
    ensures Get(PutAll(d, kvs), k) == Get(d, k)
    decreases |kvs|
  {
    if |kvs| > 0 {
      var rest := kvs[1..];
      assert forall i :: 0 <= i < |rest| ==> rest[i] == kvs[i + 1];
      PutAllOthers(Put(d, kvs[0].0, kvs[0].1), rest, k);
    }
  }

  /** A key holds the value of its last assignment. */
  lemma {:induction false} PutAllLast<K(!new), V>(d: Dict<K, V>, kvs: seq<(K, V)>, i: nat)
    requires i < |kvs|
    requires forall j :: i < j < |kvs| ==> kvs[j].0 != kvs[i].0
    ensures Get(PutAll(d, kvs), kvs[i].0) == Some(kvs[i].1)
    decreases |kvs|
  {
    var rest := kvs[1..];
    var d' := Put(d, kvs[0].0, kvs[0].1);
    assert forall j :: 0 <= j < |rest| ==> rest[j] == kvs[j + 1];
    if i == 0 {
      PutAllOthers(d', rest, kvs[0].0);
    } else {
      PutAllLast(d', rest, i - 1);
    }
  }

  /** Every key of the result was already there or was assigned. */
  lemma {:induction false} PutAllKeys<K(!new), V>(d: Dict<K, V>, kvs: seq<(K, V)>, k: K)
    requires HasKey(PutAll(d, kvs), k)
    ensures HasKey(d, k) || exists i :: 0 <= i < |kvs| && kvs[i].0 == k
  {
    if forall i :: 0 <= i < |kvs| ==> kvs[i].0 != k {
      PutAllOthers(d, kvs, k);
    }
  }

  /** Keys assigned one after another stay distinct. */
  lemma {:induction false} PutAllUnique<K(!new), V>(d: Dict<K, V>, kvs: seq<(K, V)>)
    requires UniqueKeys(d)
    ensures UniqueKeys(PutAll(d, kvs))
    decreases |kvs|
  {
    if |kvs| > 0 {
      PutUnique(d, kvs[0].0, kvs[0].1);
      PutAllUnique(Put(d, kvs[0].0, kvs[0].1), kvs[1..]);
    }
  }

  /** `dict(pairs)`: the pairs assigned in order to an empty dict. */
  function FromPairs<K(==,!new), V>(kvs: seq<(K, V)>): (r: Dict<K, V>)
    ensures UniqueKeys(r)
    ensures forall k :: HasKey(r, k) <==> exists i :: 0 <= i < |kvs| && kvs[i].0 == k
    ensures forall i :: (0 <= i < |kvs| && forall j :: i < j < |kvs| ==> kvs[j].0 != kvs[i].0)
                          ==> Get(r, kvs[i].0) == Some(kvs[i].1)
  {
    var r := PutAll([], kvs);
    PutAllUnique([], kvs);
    assert forall i :: (0 <= i < |kvs| && forall j :: i < j < |kvs| ==> kvs[j].0 != kvs[i].0)
                          ==> Get(r, kvs[i].0) == Some(kvs[i].1) by {
      forall i | 0 <= i < |kvs| && (forall j :: i < j < |kvs| ==> kvs[j].0 != kvs[i].0)
        ensures Get(r, kvs[i].0) == Some(kvs[i].1)
      {
        PutAllLast([], kvs, i);
      }
    }
    assert forall k :: HasKey(r, k) ==> exists i :: 0 <= i < |kvs| && kvs[i].0 == k by {
      forall k | HasKey(r, k) ensures exists i :: 0 <= i < |kvs| && kvs[i].0 == k {
        PutAllKeys([], kvs, k);
      }
    }
    assert forall k :: (exists i :: 0 <= i < |kvs| && kvs[i].0 == k) ==> HasKey(r, k) by {
      forall k | exists i :: 0 <= i < |kvs| && kvs[i].0 == k ensures HasKey(r, k) {
        var i :| 0 <= i < |kvs| && kvs[i].0 == k;
        var last := LastOf(kvs, k, i);
        PutAllLast([], kvs, last);
      }
    }
    r
  }

  /** Among pairs `a + b`, the last pair of `b` with a key decides it. */
  lemma FromPairsRight<K(!new), V>(a: seq<(K, V)>, b: seq<(K, V)>, i: nat)
    requires i < |b| && forall j :: i < j < |b| ==> b[j].0 != b[i].0
    ensures Get(FromPairs(a + b), b[i].0) == Some(b[i].1)
  {
    var all := a + b;
    assert all[|a| + i] == b[i];
    forall j | |a| + i < j < |all| ensures all[j].0 != all[|a| + i].0 {
      assert all[j] == b[j - |a|];
    }
  }

  /** The index of the last pair with key `k`, at or after `i`. */
  function LastOf<K(==), V>(kvs: seq<(K, V)>, k: K, i: nat): (r: nat)
    requires i < |kvs| && kvs[i].0 == k
    ensures i <= r < |kvs| && kvs[r].0 == k
    ensures forall j :: r < j < |kvs| ==> kvs[j].0 != k
    decreases |kvs| - i
  {
    if exists j :: i < j < |kvs| && kvs[j].0 == k then
      var j :| i < j < |kvs| && kvs[j].0 == k;
      LastOf(kvs, k, j)
    else i
  }

  predicate Distinct<K(==)>(ks: seq<K>) {
    forall i, j :: 0 <= i < j < |ks| ==> ks[i] != ks[j]
  }

  /** The dict that assigns `d[ks[j]] = v` for each `vs[j]` that is
      `Some(v)`, in order: with distinct keys, looking up `ks[j]` gives
      `vs[j]` back. */
  function FromPresent<K(==,!new), V>(ks: seq<K>, vs: seq<Option<V>>): (r: Dict<K, V>)
    requires |ks| == |vs|
    ensures UniqueKeys(r)
    ensures forall k :: HasKey(r, k) ==> k in ks
    ensures Distinct(ks) ==> forall j :: 0 <= j < |ks| ==> Get(r, ks[j]) == vs[j]
    decreases |ks|
  {
    if |ks| == 0 then []
    else
      var n := |ks| - 1;
      var d := FromPresent(ks[..n], vs[..n]);
      assert forall j :: 0 <= j < n ==> ks[..n][j] == ks[j] && vs[..n][j] == vs[j];
      match vs[n]
      case None =>
        FromPresentNone(ks, vs, d);
        d
      case Some(v) =>
        PutUnique(d, ks[n], v);
        FromPresentSome(ks, vs, d, v);
        Put(d, ks[n], v)
  }

  lemma FromPresentNone<K(!new), V>(ks: seq<K>, vs: seq<Option<V>>, d: Dict<K, V>)
    requires |ks| == |vs| > 0 && vs[|ks| - 1].None?
    requires forall k :: HasKey(d, k) ==> k in ks[..|ks| - 1]
    requires Distinct(ks[..|ks| - 1]) ==> forall j :: 0 <= j < |ks| - 1 ==> Get(d, ks[j]) == vs[j]
    ensures forall k :: HasKey(d, k) ==> k in ks
    ensures Distinct(ks) ==> forall j :: 0 <= j < |ks| ==> Get(d, ks[j]) == vs[j]
  {
    var n := |ks| - 1;
    var front := ks[..n];
    forall k | HasKey(d, k) ensures k in ks {
      assert k in front;
    }
    if Distinct(ks) {
      assert Distinct(front);
      forall j | 0 <= j < |ks| ensures Get(d, ks[j]) == vs[j] {
        if j == n {
          assert forall m :: 0 <= m < n ==> front[m] != ks[n];
          assert ks[n] !in front;
        }
      }
    }
  }

  lemma FromPresentSome<K(!new), V>(ks: seq<K>, vs: seq<Option<V>>, d: Dict<K, V>, v: V)
    requires |ks| == |vs| > 0 && vs[|ks| - 1] == Some(v)
    requires forall k :: HasKey(d, k) ==> k in ks[..|ks| - 1]
    requires Distinct(ks[..|ks| - 1]) ==> forall j :: 0 <= j < |ks| - 1 ==> Get(d, ks[j]) == vs[j]
    ensures forall k :: HasKey(Put(d, ks[|ks| - 1], v), k) ==> k in ks
    ensures Distinct(ks) ==> forall j :: 0 <= j < |ks| ==> Get(Put(d, ks[|ks| - 1], v), ks[j]) == vs[j]
  {
    var n := |ks| - 1;
    var front := ks[..n];
    var r := Put(d, ks[n], v);
    forall k | HasKey(r, k) ensures k in ks {
      if k != ks[n] {
        assert Get(r, k) == Get(d, k);
        assert k in front;
      }
    }
    if Distinct(ks) {
      assert Distinct(front);
      forall j | 0 <= j < |ks| ensures Get(r, ks[j]) == vs[j] {
        if j < n {
          assert ks[j] != ks[n];
        }
      }
    }
  }
}

/**
 * The recommendation engine with embeddings and the vector index taken as
 * given: the index's answer (ids, metadata, distances, documents) or the
 * cosine similarity of each stored embedding is an input, and what is
 * modelled is the exclusion, ranking, truncation and shaping of the result,
 * the rebuild of the SQLite embedding table, and the backend flag.
 */
module Recommendations {
  import opened Base
  import opened Chars
  import opened Numbers
  import opened ProductDb

  // ---------------------------------------------------------------------
  // Backend flag

  /** `USE_CHROMA` (unset is `None`): the vector index is used unless the
      lower-cased value is "0", "false" or "no". */
  function UseChroma(env: Option<string>): (on: bool)
    ensures env.None? ==> on
    ensures env.Some? ==> (on <==> LowerStr(env.value) != "0" && LowerStr(env.value) != "false" && LowerStr(env.value) != "no")
  {
    var v := LowerStr(env.GetOr("true"));
    !(v == "0" || v == "false" || v == "no")
  }

  /** The flag does not depend on letter case. */
  lemma UseChromaIgnoresCase(s: string)
    ensures UseChroma(Some(s)) == UseChroma(Some(LowerStr(s)))
  {
    LowerStrTwice(s);
  }

  // ---------------------------------------------------------------------
  // Shaping one recommendation

  const PreviewLength: nat := 100

  /** `description_preview`: the text itself when it has at most 100
      characters, else its first 100 followed by "...". */
  function Preview(doc: string): (p: string)
    ensures |doc| <= PreviewLength ==> p == doc
    ensures |doc| > PreviewLength ==> |p| == PreviewLength + 3 && p[PreviewLength..] == "..."
    ensures |p| <= PreviewLength + 3
    ensures forall i :: 0 <= i < |p| && i < PreviewLength ==> p[i] == doc[i]
  {
    if |doc| > PreviewLength then doc[..PreviewLength] + "..." else doc
  }

  /** The text embedded for a product. */
  function ProductText(r: Row): string {
    r.name + " - " + r.description
  }

  /** The text starts with the name and ends with the description. */
  lemma ProductTextParts(r: Row)
    ensures IsPrefix(r.name, ProductText(r))
    ensures |ProductText(r)| == |r.name| + 3 + |r.description|
    ensures ProductText(r)[|r.name| + 3..] == r.description
  {
  }

  /** `1 / (1 + distance)`; `None` is the division by zero at distance -1,
      which the engine lets propagate. */
  function Similarity(distance: real): (s: Option<real>)
    ensures s.None? <==> distance == -1.0
    ensures distance >= 0.0 ==> s.Some? && 0.0 < s.value <= 1.0
    ensures s.Some? ==> s.value * (1.0 + distance) == 1.0
  {
    if distance == -1.0 then None else Some(1.0 / (1.0 + distance))
  }

  /** A farther neighbour is strictly less similar. */
  lemma SimilarityDecreasing(d1: real, d2: real)
    requires 0.0 <= d1 < d2
    ensures Similarity(d1).value > Similarity(d2).value
  {
    var s1, s2 := Similarity(d1).value, Similarity(d2).value;
    assert s1 * (1.0 + d1) == 1.0 && s2 * (1.0 + d2) == 1.0;
    MulMonotone(1.0 + d1, 1.0 + d2, s2);
    assert s2 * (1.0 + d1) < 1.0;
  }

  /** One entry of the result. */
  datatype Rec = Rec(id: int, name: string, category: string, price: real, rating: real,
                     platform: string, similarity: real, preview: string)

  // ---------------------------------------------------------------------
  // The target product

  /** The target lookup: the product with that id, provided it has a
      non-empty description. */
  function Target(rows: seq<Row>, pid: int): (t: Option<Row>)
    ensures t.Some? ==> t.value in rows && t.value.id == pid && t.value.description != ""
    ensures t.None? ==> forall x :: x in rows && x.id == pid ==> x.description == ""
  {
    if |rows| == 0 then None
    else if rows[0].id == pid && rows[0].description != "" then Some(rows[0])
    else Target(rows[1..], pid)
  }

  // ---------------------------------------------------------------------
  // The vector-index backend

  /** Metadata stored with each indexed product. */
  datatype Meta = Meta(name: string, category: string, price: real, rating: real, platform: string)

  /** One neighbour the index returns for the query, nearest first. */
  datatype Hit = Hit(id: int, meta: Meta, distance: real, document: string)

  function HitRec(h: Hit, sim: real): Rec {
    Rec(h.id, h.meta.name, h.meta.category, h.meta.price, h.meta.rating, h.meta.platform,
        Round(sim, 4), Preview(h.document))
  }

  /** No distance the index returned is -1, so every similarity is defined. */
  predicate Defined(hits: seq<Hit>) {
    forall i :: 0 <= i < |hits| ==> hits[i].distance != -1.0
  }

  /** Reference reading of the index's answer: one record for each
      neighbour other than the target, in the index's order, with no limit. */
  function Neighbours(hits: seq<Hit>, pid: int): (r: seq<Rec>)
    requires Defined(hits)
    ensures |r| <= |hits|
    ensures forall i :: 0 <= i < |r| ==> r[i].id != pid
  {
    if |hits| == 0 then []
    else if hits[0].id == pid then Neighbours(hits[1..], pid)
    else [HitRec(hits[0], Similarity(hits[0].distance).value)] + Neighbours(hits[1..], pid)
  }

  /** Taking `n >= 1` from a sequence that starts with `x` takes `x` and
      `n - 1` from the rest. */
  lemma SliceToCons<T>(x: T, s: seq<T>, n: int)
    requires n >= 1
    ensures SliceTo([x] + s, n) == [x] + SliceTo(s, n - 1)
  {
    var l := SliceTo([x] + s, n);
    assert l == ([x] + s)[..|l|];
    assert SliceTo(s, n - 1) == s[..|l| - 1];
  }

  /** The tail of a defined answer is defined. */
  lemma DefinedTail(hits: seq<Hit>)
    requires |hits| > 0
    ensures Defined(hits) ==> Defined(hits[1..])
  {
    if Defined(hits) {
      forall i | 0 <= i < |hits[1..]| ensures hits[1..][i].distance != -1.0 {
        assert hits[1..][i] == hits[i + 1];
      }
    }
  }

  /** Taking `n >= 1` neighbours of an answer that starts with a product
      other than the target takes that product first. */
  lemma NeighbourStep(hits: seq<Hit>, pid: int, n: int, acc: seq<Rec>)
    requires |hits| > 0 && hits[0].id != pid && n >= 1
    ensures Defined(hits) ==> Defined(hits[1..])
    ensures Defined(hits) ==>
              acc + SliceTo(Neighbours(hits, pid), n)
              == acc + [HitRec(hits[0], Similarity(hits[0].distance).value)] + SliceTo(Neighbours(hits[1..], pid), n - 1)
  {
    DefinedTail(hits);
    if Defined(hits) {
      var x := HitRec(hits[0], Similarity(hits[0].distance).value);
      var rest := SliceTo(Neighbours(hits[1..], pid), n - 1);
      SliceToCons(x, Neighbours(hits[1..], pid), n);
      assert acc + ([x] + rest) == acc + [x] + rest;
    }
  }

  /** The loop over the index's answer as written: skip the target, append,
      then stop once at least `k` were collected. `None` is an error. */
  function ChromaLoop(hits: seq<Hit>, pid: int, k: int, acc: seq<Rec>): (r: Option<seq<Rec>>)
    requires forall i :: 0 <= i < |acc| ==> acc[i].id != pid
    requires |acc| < k || |acc| == 0
    ensures r.Some? ==> |acc| <= |r.value| && r.value[..|acc|] == acc
    ensures r.Some? ==> forall i :: 0 <= i < |r.value| ==> r.value[i].id != pid
    ensures r.Some? ==> |r.value| <= |acc| + |hits|
    ensures r.Some? ==> |r.value| <= Max0(k) || |r.value| == 1
    ensures Defined(hits) ==> r == Some(acc + SliceTo(Neighbours(hits, pid), if |acc| < k then k - |acc| else 1))
    decreases |hits|
  {
    if |hits| == 0 then assert acc + [] == acc; Some(acc)
    else if hits[0].id == pid then DefinedTail(hits); ChromaLoop(hits[1..], pid, k, acc)
    else
      NeighbourStep(hits, pid, if |acc| < k then k - |acc| else 1, acc);
      var sim :- Similarity(hits[0].distance);
      var acc' := acc + [HitRec(hits[0], sim)];
      if |acc'| >= k then assert acc' + [] == acc'; Some(acc')
      else ChromaLoop(hits[1..], pid, k, acc')
  }

  /** The vector-index branch as written: the first `k` neighbours other
      than the target, but one when `k` is not positive; a distance of -1
      among the neighbours it reaches is the error. */
  function ChromaRecommend(hits: seq<Hit>, pid: int, k: int): (r: Option<seq<Rec>>)
    ensures r.Some? ==> forall i :: 0 <= i < |r.value| ==> r.value[i].id != pid
    ensures r.Some? && k >= 1 ==> |r.value| <= k
    ensures r.Some? ==> |r.value| <= Max0(k) || |r.value| == 1
    ensures Defined(hits) ==> r == Some(SliceTo(Neighbours(hits, pid), if k >= 1 then k else 1))
    ensures r.None? ==> exists i :: 0 <= i < |hits| && hits[i].distance == -1.0
  {
    ChromaLoop(hits, pid, k, [])
  }

  /** With no recommendations asked for, the loop still returns the first
      neighbour other than the target, because it appends before it checks
      the count. */
  lemma ChromaZeroReturnsOne()
    ensures var h := Hit(2, Meta("b", "general", 1.0, 4.0, "amazon"), 0.0, "b - text");
            ChromaRecommend([h], 1, 0) == Some([HitRec(h, 1.0)])
  {
  }

  /** The loop with the count checked before appending: it never returns
      more than `k`. */
  function ChromaLoopFixed(hits: seq<Hit>, pid: int, k: int, acc: seq<Rec>): (r: Option<seq<Rec>>)
    requires forall i :: 0 <= i < |acc| ==> acc[i].id != pid
    requires |acc| <= Max0(k)
    ensures r.Some? ==> |acc| <= |r.value| && r.value[..|acc|] == acc
    ensures r.Some? ==> forall i :: 0 <= i < |r.value| ==> r.value[i].id != pid
    ensures r.Some? ==> |r.value| <= Max0(k)
    ensures Defined(hits) ==> r == Some(acc + SliceTo(Neighbours(hits, pid), Max0(k) - |acc|))
    decreases |hits|
  {
    if |hits| == 0 || |acc| >= k then assert acc + [] == acc; Some(acc)
    else if hits[0].id == pid then DefinedTail(hits); ChromaLoopFixed(hits[1..], pid, k, acc)
    else
      NeighbourStep(hits, pid, Max0(k) - |acc|, acc);
      var sim :- Similarity(hits[0].distance);
      ChromaLoopFixed(hits[1..], pid, k, acc + [HitRec(hits[0], sim)])
  }

  /** The vector-index branch as intended: at most `k` recommendations. */
  function ChromaRecommendFixed(hits: seq<Hit>, pid: int, k: int): (r: Option<seq<Rec>>)
    ensures r.Some? ==> forall i :: 0 <= i < |r.value| ==> r.value[i].id != pid
    ensures r.Some? ==> |r.value| <= Max0(k)
    ensures Defined(hits) ==> r == Some(SliceTo(Neighbours(hits, pid), Max0(k)))
    ensures r.None? ==> exists i :: 0 <= i < |hits| && hits[i].distance == -1.0
  {
    ChromaLoopFixed(hits, pid, k, [])
  }

  /** For every positive `k` the corrected loop gives the same answer. */
  lemma {:induction false} ChromaLoopFixedAgrees(hits: seq<Hit>, pid: int, k: int, acc: seq<Rec>)
    requires k >= 1 && |acc| < k
    requires forall i :: 0 <= i < |acc| ==> acc[i].id != pid
    ensures ChromaLoopFixed(hits, pid, k, acc) == ChromaLoop(hits, pid, k, acc)
    decreases |hits|
  {
    if |hits| > 0 && hits[0].id == pid {
      ChromaLoopFixedAgrees(hits[1..], pid, k, acc);
    } else if |hits| > 0 && Similarity(hits[0].distance).Some? {
      var acc' := acc + [HitRec(hits[0], Similarity(hits[0].distance).value)];
      if |acc'| < k {
        ChromaLoopFixedAgrees(hits[1..], pid, k, acc');
      } else {
        assert ChromaLoopFixed(hits[1..], pid, k, acc') == Some(acc') by {
          if |hits[1..]| > 0 {
            assert |acc'| >= k;
          }
        }
      }
    }
  }

  lemma ChromaFixedAgrees(hits: seq<Hit>, pid: int, k: int)
    requires k >= 1
    ensures ChromaRecommendFixed(hits, pid, k) == ChromaRecommend(hits, pid, k)
  {
    ChromaLoopFixedAgrees(hits, pid, k, []);
  }

  /** Recommendations from most to least similar. */
  predicate RankedRecs(r: seq<Rec>) {
    forall i, j :: 0 <= i < j < |r| ==> r[i].similarity >= r[j].similarity
  }

  /** When the index answers nearest first, the similarities come out
      non-increasing. */
  lemma {:induction false} ChromaOrdered(hits: seq<Hit>, pid: int, k: int, acc: seq<Rec>, last: real)
    requires forall i :: 0 <= i < |acc| ==> acc[i].id != pid
    requires |acc| < k || |acc| == 0
    requires RankedRecs(acc)
    requires forall i :: 0 <= i < |acc| ==> acc[i].similarity >= last
    requires forall j :: 0 <= j < |hits| ==> 0.0 <= hits[j].distance
    requires forall j :: 0 <= j < |hits| ==> Round(1.0 / (1.0 + hits[j].distance), 4) <= last
    requires forall i, j :: 0 <= i < j < |hits| ==> hits[i].distance <= hits[j].distance
    ensures var r := ChromaLoop(hits, pid, k, acc);
            r.Some? && RankedRecs(r.value)
    decreases |hits|
  {
    if |hits| > 0 {
      if hits[0].id == pid {
        ChromaOrdered(hits[1..], pid, k, acc, last);
        assert ChromaLoop(hits, pid, k, acc) == ChromaLoop(hits[1..], pid, k, acc);
      } else {
        var sim := Similarity(hits[0].distance).value;
        var x := HitRec(hits[0], sim);
        var acc' := acc + [x];
        var here := Round(sim, 4);
        LaterLessSimilar(hits);
        RankedSnoc(acc, x, last);
        if |acc'| < k {
          ChromaOrdered(hits[1..], pid, k, acc', here);
          assert ChromaLoop(hits, pid, k, acc) == ChromaLoop(hits[1..], pid, k, acc');
        } else {
          assert ChromaLoop(hits, pid, k, acc) == Some(acc');
        }
      }
    }
  }

  /** In an answer ordered nearest first, every later neighbour's rounded
      similarity is at most the first one's. */
  lemma LaterLessSimilar(hits: seq<Hit>)
    requires |hits| > 0
    requires forall j :: 0 <= j < |hits| ==> 0.0 <= hits[j].distance
    requires forall i, j :: 0 <= i < j < |hits| ==> hits[i].distance <= hits[j].distance
    ensures forall j :: 0 <= j < |hits[1..]| ==>
              Round(1.0 / (1.0 + hits[1..][j].distance), 4) <= Round(Similarity(hits[0].distance).value, 4)
  {
    var sim := Similarity(hits[0].distance).value;
    forall j | 0 <= j < |hits[1..]|
      ensures Round(1.0 / (1.0 + hits[1..][j].distance), 4) <= Round(sim, 4)
    {
      assert hits[0].distance <= hits[j + 1].distance;
      if hits[0].distance < hits[j + 1].distance {
        SimilarityDecreasing(hits[0].distance, hits[j + 1].distance);
      }
      RoundMonotone(1.0 / (1.0 + hits[j + 1].distance), sim, 4);
    }
  }

  /** Appending a record no more similar than the bound keeps the order,
      and every record is at least as similar as the new last one. */
  lemma RankedSnoc(acc: seq<Rec>, x: Rec, last: real)
    requires RankedRecs(acc)
    requires forall i :: 0 <= i < |acc| ==> acc[i].similarity >= last
    requires x.similarity <= last
    ensures RankedRecs(acc + [x])
    ensures forall i :: 0 <= i < |acc + [x]| ==> (acc + [x])[i].similarity >= x.similarity
  {
  }

  // ---------------------------------------------------------------------
  // The SQLite backend

  /** `(product id, cosine similarity to the target)` for each stored
      embedding, in table order. */
  type Pair = (int, real)

  predicate SortedDesc(s: seq<Pair>) {
    forall i, j :: 0 <= i < j < |s| ==> s[i].1 >= s[j].1
  }

  /** Inserts `x` after every entry at least as similar. */
  function InsertPair(x: Pair, s: seq<Pair>): (r: seq<Pair>)
    requires SortedDesc(s)
    ensures SortedDesc(r)
    ensures multiset(r) == multiset(s) + multiset{x}
    ensures |r| == |s| + 1
    ensures r[0] == x || (|s| > 0 && r[0] == s[0])
  {
    if |s| == 0 then [x]
    else if x.1 > s[0].1 then [x] + s
    else
      var t := InsertPair(x, s[1..]);
      assert s == [s[0]] + s[1..];
      [s[0]] + t
  }

  /** `pairs.sort(key=similarity, reverse=True)`; the sort is stable, and
      so is this one, since each entry goes after its equals. */
  function SortPairs(s: seq<Pair>): (r: seq<Pair>)
    ensures SortedDesc(r)
    ensures multiset(r) == multiset(s)
    ensures |r| == |s|
  {
    if |s| == 0 then []
    else
      assert s == s[..|s| - 1] + [s[|s| - 1]];
      InsertPair(s[|s| - 1], SortPairs(s[..|s| - 1]))
  }

  /** The pairs of every product other than the target. */
  function ExcludeId(s: seq<Pair>, pid: int): (r: seq<Pair>)
    ensures forall p :: p in r <==> p in s && p.0 != pid
    ensures |r| <= |s|
  {
    if |s| == 0 then []
    else if s[0].0 == pid then ExcludeId(s[1..], pid)
    else [s[0]] + ExcludeId(s[1..], pid)
  }

  /** Python's `s[:k]`: a negative `k` drops that many from the end. */
  function SliceTo<T>(s: seq<T>, k: int): (r: seq<T>)
    ensures k >= 0 ==> |r| == if k < |s| then k else |s|
    ensures k < 0 ==> |r| == if -k < |s| then |s| + k else 0
    ensures r == s[..|r|]
  {
    if k >= 0 then (if k < |s| then s[..k] else s)
    else if -k < |s| then s[..|s| + k] else []
  }

  /** The chosen pairs whose product still has a catalog row; the others
      are skipped. */
  function WithRow(top: seq<Pair>, rows: seq<Row>): (r: seq<Pair>)
    ensures forall p :: p in r <==> p in top && HasId(rows, p.0)
    ensures |r| <= |top|
    ensures SortedDesc(top) ==> SortedDesc(r)
  {
    if |top| == 0 then []
    else if HasId(rows, top[0].0) then
      var rest := WithRow(top[1..], rows);
      assert forall p :: p in rest ==> p in top[1..];
      [top[0]] + rest
    else WithRow(top[1..], rows)
  }

  /** The pairs the SQLite branch turns into recommendations. */
  function Chosen(rows: seq<Row>, pairs: seq<Pair>, pid: int, k: int): (r: seq<Pair>)
    ensures SortedDesc(r)
    ensures forall p :: p in r ==> p in pairs && p.0 != pid && HasId(rows, p.0)
    ensures k >= 0 ==> |r| <= k
  {
    var ranked := SortPairs(ExcludeId(pairs, pid));
    var top := SliceTo(ranked, k);
    RankedCandidates(pairs, pid);
    SliceToSorted(ranked, k);
    WithRow(top, rows)
  }

  /** The ranking holds exactly the stored pairs other than the target. */
  lemma RankedCandidates(pairs: seq<Pair>, pid: int)
    ensures forall p :: p in SortPairs(ExcludeId(pairs, pid)) <==> p in pairs && p.0 != pid
  {
    var e := ExcludeId(pairs, pid);
    var ranked := SortPairs(e);
    forall p ensures p in ranked <==> p in e {
      assert p in ranked <==> p in multiset(ranked);
      assert p in e <==> p in multiset(e);
    }
  }

  /** A cut of a ranking is a ranking of some of its pairs. */
  lemma SliceToSorted(s: seq<Pair>, k: int)
    requires SortedDesc(s)
    ensures SortedDesc(SliceTo(s, k))
    ensures forall p :: p in SliceTo(s, k) ==> p in s
  {
    var t := SliceTo(s, k);
    assert forall m :: 0 <= m < |t| ==> t[m] == s[m];
  }

  function ToRec(row: Row, sim: real): Rec {
    Rec(row.id, row.name, row.category, row.price, row.rating, row.platform,
        Round(sim, 4), Preview(row.description))
  }

  /** The SQLite branch: nothing when no embedding is stored; otherwise the
      stored ids other than the target, by similarity, cut to `k`, each
      looked up in the catalog and skipped when it has no row. */
  function SqliteRecommend(rows: seq<Row>, pairs: seq<Pair>, pid: int, k: int): (r: seq<Rec>)
    ensures |pairs| == 0 ==> r == []
    ensures forall i :: 0 <= i < |r| ==> r[i].id != pid && FromStore(rows, pairs, r[i])
    ensures RankedRecs(r)
    ensures k >= 0 ==> |r| <= k
  {
    if |pairs| == 0 then []
    else
      var c := Chosen(rows, pairs, pid, k);
      var r := ToRecs(rows, c);
      ToRecsOrdered(rows, c);
      ToRecsFrom(rows, c, pairs, pid);
      r
  }

  lemma ToRecsOrdered(rows: seq<Row>, c: seq<Pair>)
    requires forall p :: p in c ==> HasId(rows, p.0)
    requires SortedDesc(c)
    ensures RankedRecs(ToRecs(rows, c))
  {
    var r := ToRecs(rows, c);
    forall i, j | 0 <= i < j < |r| ensures r[i].similarity >= r[j].similarity {
      RoundMonotone(c[j].1, c[i].1, 4);
    }
  }

  lemma ToRecsFrom(rows: seq<Row>, c: seq<Pair>, pairs: seq<Pair>, pid: int)
    requires forall p :: p in c ==> p in pairs && p.0 != pid && HasId(rows, p.0)
    ensures var r := ToRecs(rows, c);
            forall i :: 0 <= i < |r| ==> r[i].id != pid && FromStore(rows, pairs, r[i])
  {
    var r := ToRecs(rows, c);
    forall i | 0 <= i < |r| ensures r[i].id != pid && FromStore(rows, pairs, r[i]) {
      assert c[i] in c;
    }
  }

  /** A record of a product with a catalog row and a stored embedding,
      whose similarity is the stored one rounded to four places. */
  predicate FromStore(rows: seq<Row>, pairs: seq<Pair>, rec: Rec) {
    HasId(rows, rec.id) && exists p :: p in pairs && p.0 == rec.id && rec.similarity == Round(p.1, 4)
  }

  /** Each chosen pair looked up in the catalog. */
  function ToRecs(rows: seq<Row>, c: seq<Pair>): (r: seq<Rec>)
    requires forall p :: p in c ==> HasId(rows, p.0)
    ensures |r| == |c|
    ensures forall m :: 0 <= m < |c| ==> r[m].id == c[m].0 && r[m].similarity == Round(c[m].1, 4)
  {
    if |c| == 0 then []
    else
      assert c[0] in c;
      assert forall p :: p in c[1..] ==> p in c;
      [ToRec(FindById(rows, c[0].0).value, c[0].1)] + ToRecs(rows, c[1..])
  }

  /** No stored product with a catalog row is passed over for a less
      similar one: when such a product other than the target is missing from
      the result, there were more candidates than `k` and every returned
      entry is at least as similar. */
  lemma SqliteKeepsBest(rows: seq<Row>, pairs: seq<Pair>, pid: int, k: int, x: Pair)
    requires k >= 0
    requires x in pairs && x.0 != pid && HasId(rows, x.0)
    requires forall i :: 0 <= i < |SqliteRecommend(rows, pairs, pid, k)| ==> SqliteRecommend(rows, pairs, pid, k)[i].id != x.0
    ensures k < |ExcludeId(pairs, pid)|
    ensures forall i :: 0 <= i < |SqliteRecommend(rows, pairs, pid, k)| ==> SqliteRecommend(rows, pairs, pid, k)[i].similarity >= Round(x.1, 4)
  {
    var c := Chosen(rows, pairs, pid, k);
    var r := SqliteRecommend(rows, pairs, pid, k);
    SqliteFollowsChosen(rows, pairs, pid, k);
    assert x !in c by {
      forall m | 0 <= m < |c| ensures c[m] != x {
        assert r[m].id == c[m].0;
      }
    }
    ChosenKeepsBest(rows, pairs, pid, k, x);
    forall i | 0 <= i < |r| ensures r[i].similarity >= Round(x.1, 4) {
      assert c[i] in c;
      RoundMonotone(x.1, c[i].1, 4);
    }
  }

  /** The SQLite branch turns the chosen pairs, in order, into records. */
  lemma SqliteFollowsChosen(rows: seq<Row>, pairs: seq<Pair>, pid: int, k: int)
    requires |pairs| > 0
    ensures var c := Chosen(rows, pairs, pid, k);
            var r := SqliteRecommend(rows, pairs, pid, k);
            |r| == |c| && forall m :: 0 <= m < |c| ==> r[m].id == c[m].0 && r[m].similarity == Round(c[m].1, 4)
  {
  }

  /** A candidate with a catalog row that is not chosen was cut off by `k`
      behind pairs at least as similar. */
  lemma ChosenKeepsBest(rows: seq<Row>, pairs: seq<Pair>, pid: int, k: int, x: Pair)
    requires k >= 0
    requires x in pairs && x.0 != pid && HasId(rows, x.0)
    requires x !in Chosen(rows, pairs, pid, k)
    ensures k < |ExcludeId(pairs, pid)|
    ensures forall p :: p in Chosen(rows, pairs, pid, k) ==> p.1 >= x.1
  {
    var ranked := SortPairs(ExcludeId(pairs, pid));
    var top := SliceTo(ranked, k);
    var c := Chosen(rows, pairs, pid, k);
    assert c == WithRow(top, rows);
    assert x in multiset(ranked);
    var j :| 0 <= j < |ranked| && ranked[j] == x;
    assert x !in top;
    assert j >= |top|;
    forall p | p in c ensures p.1 >= x.1 {
      var m :| 0 <= m < |top| && top[m] == p;
      assert ranked[m] == p;
    }
  }

  // ---------------------------------------------------------------------
  // get_recommendations

  /** What the engine consults besides the catalog. */
  datatype Backend = ChromaIndex(hits: seq<Hit>) | SqliteTable(pairs: seq<Pair>)

  /** `get_recommendations` as written: `[]` when the target is missing or
      has no description; `None` when the engine raises. With `k = 0` the
      vector-index branch still returns one product. */
  function GetRecommendations(rows: seq<Row>, backend: Backend, pid: int, k: int := 5): (r: Option<seq<Rec>>)
    ensures Target(rows, pid).None? ==> r == Some([])
    ensures r.Some? ==> forall i :: 0 <= i < |r.value| ==> r.value[i].id != pid
    ensures r.Some? && k >= 1 ==> |r.value| <= k
    ensures backend.ChromaIndex? && r.Some? ==> |r.value| <= Max0(k) || |r.value| == 1
    ensures backend.SqliteTable? ==> r.Some? && (k >= 0 ==> |r.value| <= k)
    ensures Target(rows, pid).Some? && backend.SqliteTable? ==> r == Some(SqliteRecommend(rows, backend.pairs, pid, k))
    ensures Target(rows, pid).Some? && backend.ChromaIndex? && Defined(backend.hits)
            ==> r == Some(SliceTo(Neighbours(backend.hits, pid), if k >= 1 then k else 1))
    ensures r.None? ==> backend.ChromaIndex? && exists i :: 0 <= i < |backend.hits| && backend.hits[i].distance == -1.0
  {
    if Target(rows, pid).None? then Some([])
    else match backend
      case ChromaIndex(hits) => ChromaRecommend(hits, pid, k)
      case SqliteTable(pairs) => Some(SqliteRecommend(rows, pairs, pid, k))
  }

  /** `get_recommendations` with the corrected vector-index loop: never more
      than `k` products. */
  function GetRecommendationsFixed(rows: seq<Row>, backend: Backend, pid: int, k: int := 5): (r: Option<seq<Rec>>)
    ensures Target(rows, pid).None? ==> r == Some([])
    ensures r.Some? ==> forall i :: 0 <= i < |r.value| ==> r.value[i].id != pid
    ensures r.Some? && k >= 0 ==> |r.value| <= k
    ensures backend.SqliteTable? ==> r.Some?
    ensures Target(rows, pid).Some? && backend.SqliteTable? ==> r == Some(SqliteRecommend(rows, backend.pairs, pid, k))
    ensures Target(rows, pid).Some? && backend.ChromaIndex? && Defined(backend.hits)
            ==> r == Some(SliceTo(Neighbours(backend.hits, pid), Max0(k)))
    ensures r.None? ==> backend.ChromaIndex? && exists i :: 0 <= i < |backend.hits| && backend.hits[i].distance == -1.0
  {
    if Target(rows, pid).None? then Some([])
    else match backend
      case ChromaIndex(hits) => ChromaRecommendFixed(hits, pid, k)
      case SqliteTable(pairs) => Some(SqliteRecommend(rows, pairs, pid, k))
  }

  /** The two agree whenever at least one recommendation is asked for, and
      on the SQLite backend always. */
  lemma GetRecommendationsFixedAgrees(rows: seq<Row>, backend: Backend, pid: int, k: int)
    requires k >= 1 || backend.SqliteTable?
    ensures GetRecommendationsFixed(rows, backend, pid, k) == GetRecommendations(rows, backend, pid, k)
  {
    if Target(rows, pid).Some? && backend.ChromaIndex? {
      ChromaFixedAgrees(backend.hits, pid, k);
    }
  }

  // ---------------------------------------------------------------------
  // Rebuilding the SQLite embedding table

  /** The catalog rows the rebuild reads: those with a description. */
  function Described(rows: seq<Row>): (r: seq<Row>)
    ensures forall x :: x in r <==> x in rows && x.description != ""
  {
    if |rows| == 0 then []
    else if rows[0].description != "" then [rows[0]] + Described(rows[1..])
    else Described(rows[1..])
  }

  /** `INSERT OR REPLACE` of each product in turn. */
  function StoreAll<E>(ps: seq<Row>, table: map<int, E>, encode: string -> E): (t: map<int, E>)
    ensures t.Keys == table.Keys + (set x | x in ps :: x.id)
    ensures forall id :: id in table && (forall x :: x in ps ==> x.id != id) ==> t[id] == table[id]
  {
    if |ps| == 0 then table
    else StoreAll(ps[1..], table[ps[0].id := encode(ProductText(ps[0]))], encode)
  }

  /** The row stored for a product is the encoding of its text when no later
      product has the same id. */
  lemma {:induction false} StoreAllValue<E>(ps: seq<Row>, table: map<int, E>, encode: string -> E, i: nat)
    requires i < |ps|
    requires forall j :: i < j < |ps| ==> ps[j].id != ps[i].id
    ensures StoreAll(ps, table, encode)[ps[i].id] == encode(ProductText(ps[i]))
    decreases |ps|
  {
    if i == 0 {
      assert forall x :: x in ps[1..] ==> x.id != ps[0].id by {
        forall x | x in ps[1..] ensures x.id != ps[0].id {
          var j :| 0 <= j < |ps[1..]| && ps[1..][j] == x;
          assert ps[j + 1] == x;
        }
      }
    } else {
      StoreAllValue(ps[1..], table[ps[0].id := encode(ProductText(ps[0]))], encode, i - 1);
    }
  }

  /** `generate_embeddings_for_all_products` on the SQLite table: with no
      described product it returns before touching the table; otherwise the
      table is emptied and refilled, one row per described product. */
  function Rebuild<E>(rows: seq<Row>, table: map<int, E>, encode: string -> E): (t: map<int, E>)
    ensures Described(rows) == [] ==> t == table
    ensures Described(rows) != [] ==> t.Keys == set x | x in rows && x.description != "" :: x.id
  {
    var ps := Described(rows);
    if ps == [] then table else StoreAll(ps, map[], encode)
  }

  /** With unique ids, every described product's row holds the encoding of
      its own text. */
  lemma RebuildValues<E>(rows: seq<Row>, table: map<int, E>, encode: string -> E, x: Row)
    requires UniqueIds(rows)
    requires x in rows && x.description != ""
    ensures Rebuild(rows, table, encode)[x.id] == encode(ProductText(x))
  {
    var ps := Described(rows);
    DescribedUnique(rows);
    assert x in ps;
    var i :| 0 <= i < |ps| && ps[i] == x;
    StoreAllValue(ps, map[], encode, i);
  }

  lemma {:induction false} DescribedUnique(rows: seq<Row>)
    requires UniqueIds(rows)
    ensures UniqueIds(Described(rows))
    decreases |rows|
  {
    if |rows| > 0 {
      DescribedUnique(rows[1..]);
      var rest := Described(rows[1..]);
      assert forall j :: 0 <= j < |rest| ==> rest[j] in rows[1..];
      forall j | 0 <= j < |rest| ensures rest[j].id != rows[0].id {
        var m :| 0 <= m < |rows[1..]| && rows[1..][m] == rest[j];
        assert rows[m + 1] == rest[j];
      }
    }
  }
}

/**
 * The product catalog and the queries run against it. The table is a
 * sequence of rows in storage order; every SELECT is a filter, a sort on
 * `final_score DESC, price ASC` and a LIMIT/OFFSET, written as pure functions.
 */
module ProductDb {
  import opened Base
  import opened Chars

  /** One row of the `products` table (the timestamps are not modelled). */
  datatype Row = Row(id: int, name: string, category: string, price: real, rating: real,
                     platform: string, url: string, specs: string, qualityScore: real,
                     finalScore: real, imageUrl: string, description: string)

  /** The table: rows in storage order, the next AUTOINCREMENT id, and whether
      the connection works; when it does not every statement raises and the
      operations return their fallback values. */
  datatype Db = Db(rows: seq<Row>, nextId: int, online: bool)

  predicate UniqueIds(rows: seq<Row>) {
    forall i, j :: 0 <= i < j < |rows| ==> rows[i].id != rows[j].id
  }

  predicate IdsBelow(rows: seq<Row>, n: int) {
    forall i :: 0 <= i < |rows| ==> rows[i].id < n
  }

  /** Ids are unique and all below the next id to hand out. */
  predicate Valid(db: Db) {
    UniqueIds(db.rows) && IdsBelow(db.rows, db.nextId)
  }

  predicate HasId(rows: seq<Row>, id: int) {
    exists i :: 0 <= i < |rows| && rows[i].id == id
  }

  // ---------------------------------------------------------------------
  // Ordering

  /** `ORDER BY final_score DESC, price ASC`: `a` is listed strictly before `b`. */
  predicate Before(a: Row, b: Row) {
    a.finalScore > b.finalScore || (a.finalScore == b.finalScore && a.price < b.price)
  }

  predicate Sorted(rs: seq<Row>) {
    forall i, j :: 0 <= i < j < |rs| ==> !Before(rs[j], rs[i])
  }

  function Insert(x: Row, s: seq<Row>): (r: seq<Row>)
    requires Sorted(s)
    ensures Sorted(r)
    ensures multiset(r) == multiset(s) + multiset{x}
  {
    if |s| == 0 then [x]
    else if Before(x, s[0]) then [x] + s
    else
      var t := Insert(x, s[1..]);
      assert s == [s[0]] + s[1..];
      forall k | 0 <= k < |t| ensures !Before(t[k], s[0]) {
        assert t[k] in multiset(t);
        if t[k] != x {
          assert t[k] in multiset(s[1..]);
          var m :| 0 <= m < |s[1..]| && s[1..][m] == t[k];
          assert s[m + 1] == t[k];
        }
      }
      SortedCons(s[0], t);
      [s[0]] + t
  }

  lemma SortedCons(a: Row, t: seq<Row>)
    requires Sorted(t)
    requires forall k :: 0 <= k < |t| ==> !Before(t[k], a)
    ensures Sorted([a] + t)
  {
    var r := [a] + t;
    forall i, j | 0 <= i < j < |r| ensures !Before(r[j], r[i]) {
      if i > 0 {
        assert r[i] == t[i - 1] && r[j] == t[j - 1];
      } else {
        assert r[j] == t[j - 1];
      }
    }
  }

  /** The rows in query order. Rows that tie keep their storage order. */
  function Sort(s: seq<Row>): (r: seq<Row>)
    ensures Sorted(r)
    ensures multiset(r) == multiset(s)
  {
    if |s| == 0 then []
    else
      assert s == s[..|s| - 1] + [s[|s| - 1]];
      Insert(s[|s| - 1], Sort(s[..|s| - 1]))
  }

  // ---------------------------------------------------------------------
  // WHERE clauses

  /** The WHERE clause of each query. */
  datatype Where =
    | Alternative(category: string, minScore: real, maxPrice: real)
    | InCategory(category: string)
    | Matching(pattern: string, category: string)

  predicate Keep(w: Where, x: Row) {
    match w
    case Alternative(c, minScore, maxPrice) =>
      x.category == c && x.price <= maxPrice && x.finalScore >= minScore
    case InCategory(c) => x.category == c
    case Matching(p, c) =>
      (Like(p, x.name) || Like(p, x.description)) && (c == "" || x.category == c)
  }

  /** The rows satisfying the clause, in storage order. */
  function Filter(rows: seq<Row>, w: Where): (r: seq<Row>)
    ensures forall x :: multiset(r)[x] == if Keep(w, x) then multiset(rows)[x] else 0
    ensures |r| <= |rows|
  {
    if |rows| == 0 then []
    else
      assert rows == [rows[0]] + rows[1..];
      var rest := Filter(rows[1..], w);
      if Keep(w, rows[0]) then [rows[0]] + rest else rest
  }

  /** All qualifying rows in query order. */
  function Ranked(rows: seq<Row>, w: Where): (r: seq<Row>)
    ensures Sorted(r)
    ensures multiset(r) == multiset(Filter(rows, w))
    ensures forall x :: x in r <==> x in rows && Keep(w, x)
  {
    var r := Sort(Filter(rows, w));
    assert forall x :: x in r <==> multiset(r)[x] > 0;
    assert forall x :: x in rows <==> multiset(rows)[x] > 0;
    r
  }

  /** SQLite's `LIMIT n`: a negative limit means no limit. */
  function Take(rs: seq<Row>, limit: int): (r: seq<Row>)
    ensures limit < 0 || limit >= |rs| ==> r == rs
    ensures 0 <= limit < |rs| ==> r == rs[..limit]
  {
    if limit < 0 || limit >= |rs| then rs else rs[..limit]
  }

  /** SQLite's `OFFSET n`: a negative offset counts as zero. */
  function Skip(rs: seq<Row>, offset: int): (r: seq<Row>)
    ensures offset <= 0 ==> r == rs
    ensures 0 < offset <= |rs| ==> r == rs[offset..]
    ensures offset > |rs| ==> r == []
  {
    if offset <= 0 then rs else if offset >= |rs| then [] else rs[offset..]
  }

  /** LIMIT keeps each row no more often than it occurs. */
  lemma TakeSubMultiset(s: seq<Row>, limit: int)
    ensures multiset(Take(s, limit)) <= multiset(s)
  {
    if 0 <= limit < |s| {
      assert s == s[..limit] + s[limit..];
    }
  }

  /** `r` is what a query with clause `w` and limit `limit` may return: only
      qualifying rows, each no more often than it is stored, in query order,
      at most `limit` of them, and a qualifying row is left out only when the
      limit is reached by rows that rank at least as high. */
  predicate TopOf(r: seq<Row>, rows: seq<Row>, w: Where, limit: int) {
    && (forall x :: x in r ==> x in rows && Keep(w, x))
    && multiset(r) <= multiset(Filter(rows, w))
    && Sorted(r)
    && (limit >= 0 ==> |r| <= limit)
    && (forall x :: x in rows && Keep(w, x) && x !in r ==>
          |r| == limit && forall i :: 0 <= i < |r| ==> !Before(x, r[i]))
  }

  lemma TakeRankedIsTop(rows: seq<Row>, w: Where, limit: int)
    ensures TopOf(Take(Ranked(rows, w), limit), rows, w, limit)
  {
    var s := Ranked(rows, w);
    var r := Take(s, limit);
    TakeSubMultiset(s, limit);
    forall x | x in rows && Keep(w, x) && x !in r
      ensures |r| == limit && forall i :: 0 <= i < |r| ==> !Before(x, r[i])
    {
      TakeLeavesOutLower(s, limit, x);
    }
  }

  /** A row of a sorted list that LIMIT cuts off ranks no higher than any
      row kept, and is cut off only once the limit is reached. */
  lemma TakeLeavesOutLower(s: seq<Row>, limit: int, x: Row)
    requires Sorted(s) && x in s && x !in Take(s, limit)
    ensures |Take(s, limit)| == limit
    ensures forall i :: 0 <= i < |Take(s, limit)| ==> !Before(x, Take(s, limit)[i])
  {
    var j :| 0 <= j < |s| && s[j] == x;
    assert 0 <= limit < |s|;
    var r := Take(s, limit);
    assert forall k :: 0 <= k < |r| ==> r[k] == s[k];
    assert j >= limit;
  }

  // ---------------------------------------------------------------------
  // find_alternatives

  /** The `specs` column of a returned row: kept as text when empty, decoded
      when it is valid JSON, `{}` when it is not. */
  datatype SpecsField<J> = Raw(text: string) | Decoded(value: J) | EmptyObject

  datatype Found<J> = Found(row: Row, specs: SpecsField<J>)

  function DecodeSpecs<J>(text: string, decode: string -> Option<J>): SpecsField<J> {
    if text == "" then Raw(text)
    else match decode(text)
      case Some(v) => Decoded(v)
      case None => EmptyObject
  }

  /** The rows `find_alternatives` selects: same category, price at most the
      cap, final score at least 90% of the target. */
  function AlternativeRows(rows: seq<Row>, category: string, targetScore: real, maxPrice: real, limit: int): (r: seq<Row>)
    ensures TopOf(r, rows, Alternative(category, targetScore * 0.9, maxPrice), limit)
  {
    TakeRankedIsTop(rows, Alternative(category, targetScore * 0.9, maxPrice), limit);
    Take(Ranked(rows, Alternative(category, targetScore * 0.9, maxPrice)), limit)
  }

  /** `find_alternatives`; `decode` stands for `json.loads`, `None` for a
      decoding error. */
  function FindAlternatives<J>(db: Db, category: string, targetScore: real, maxPrice: real,
                               decode: string -> Option<J>, limit: int := 10): (r: seq<Found<J>>)
    ensures !db.online ==> r == []
    ensures db.online ==> |r| == |AlternativeRows(db.rows, category, targetScore, maxPrice, limit)|
    ensures forall i :: 0 <= i < |r| ==>
              && r[i].row == AlternativeRows(db.rows, category, targetScore, maxPrice, limit)[i]
              && (r[i].row.specs == "" ==> r[i].specs == Raw(""))
              && (r[i].row.specs != "" && decode(r[i].row.specs).None? ==> r[i].specs == EmptyObject)
              && (r[i].row.specs != "" && decode(r[i].row.specs).Some? ==> r[i].specs == Decoded(decode(r[i].row.specs).value))
  {
    if !db.online then []
    else
      var rs := AlternativeRows(db.rows, category, targetScore, maxPrice, limit);
      seq(|rs|, i requires 0 <= i < |rs| => Found(rs[i], DecodeSpecs(rs[i].specs, decode)))
  }

  // ---------------------------------------------------------------------
  // get_products_by_category

  /** `get_products_by_category`: page `page` (from 1) of the category's rows
      in query order, `limit` rows a page. */
  function ProductsByCategory(db: Db, category: string, page: int := 1, limit: int := 20): (r: seq<Row>)
    ensures !db.online ==> r == []
    ensures forall x :: x in r ==> x in db.rows && x.category == category
    ensures Sorted(r)
    ensures limit >= 0 ==> |r| <= limit
  {
    if !db.online then []
    else
      var s := Ranked(db.rows, InCategory(category));
      WindowOfRanking(s, Offset(page, limit), limit);
      Take(Skip(s, Offset(page, limit)), limit)
  }

  /** A window of a ranking is a ranking of some of its rows. */
  lemma WindowOfRanking(s: seq<Row>, off: int, limit: int)
    requires Sorted(s)
    ensures Sorted(Take(Skip(s, off), limit))
    ensures forall x :: x in Take(Skip(s, off), limit) ==> x in s
    ensures limit >= 0 ==> |Take(Skip(s, off), limit)| <= limit
  {
    var d := if off <= 0 then 0 else if off >= |s| then |s| else off;
    var e := if limit < 0 || limit >= |s| - d then |s| else d + limit;
    assert Skip(s, off) == s[d..];
    assert Take(Skip(s, off), limit) == s[d..e];
    SortedSlice(s, d, e);
  }

  /** A stretch of a ranking is a ranking. */
  lemma SortedSlice(s: seq<Row>, d: nat, e: nat)
    requires Sorted(s) && d <= e <= |s|
    ensures Sorted(s[d..e])
    ensures forall x :: x in s[d..e] ==> x in s
  {
    var w := s[d..e];
    forall i, j | 0 <= i < j < |w| ensures !Before(w[j], w[i]) {
      assert w[i] == s[d + i] && w[j] == s[d + j];
    }
  }

  /** LIMIT after OFFSET picks the window starting at the offset. */
  lemma Window(s: seq<Row>, off: nat, limit: nat)
    ensures |Take(Skip(s, off), limit)| == Max0(Min0(limit, |s| - off))
    ensures forall i :: 0 <= i < |Take(Skip(s, off), limit)| ==> Take(Skip(s, off), limit)[i] == s[off + i]
  {
  }

  /** `offset = (page - 1) * limit`. */
  function Offset(page: int, limit: int): (off: int)
    ensures page >= 1 && limit >= 0 ==> off >= 0
  {
    MulNonneg(page - 1, limit);
    (page - 1) * limit
  }

  /** Page `page` holds exactly the ranked category rows from position
      (page-1)*limit on, as many as the limit allows. */
  lemma PageContents(db: Db, category: string, page: int, limit: int)
    requires db.online && page >= 1 && limit >= 0
    ensures var s := Ranked(db.rows, InCategory(category));
            var r := ProductsByCategory(db, category, page, limit);
            && |r| == Max0(Min0(limit, |s| - Offset(page, limit)))
            && forall i :: 0 <= i < |r| ==> r[i] == s[Offset(page, limit) + i]
  {
    var s := Ranked(db.rows, InCategory(category));
    var off := Offset(page, limit);
    Window(s, off, limit);
    assert ProductsByCategory(db, category, page, limit) == Take(Skip(s, off), limit);
  }

  /** Position `j` of a ranking is on page j/limit + 1, at j mod limit. */
  lemma WindowOfIndex(s: seq<Row>, limit: int, j: nat)
    requires limit > 0 && j < |s|
    ensures var w := Take(Skip(s, Offset(j / limit + 1, limit)), limit);
            j % limit < |w| && w[j % limit] == s[j]
  {
    var q, m := j / limit, j % limit;
    DivMod(j, limit);
    var off := Offset(q + 1, limit);
    assert off == q * limit;
    Window(s, off, limit);
  }

  /** Every ranked row is on exactly the page its position gives. */
  lemma EveryRowOnItsPage(db: Db, category: string, limit: int, j: nat)
    requires db.online && limit > 0
    requires j < |Ranked(db.rows, InCategory(category))|
    ensures var r := ProductsByCategory(db, category, j / limit + 1, limit);
            j % limit < |r| && r[j % limit] == Ranked(db.rows, InCategory(category))[j]
  {
    WindowOfIndex(Ranked(db.rows, InCategory(category)), limit, j);
  }

  function Max0(n: int): nat { if n < 0 then 0 else n }
  function Min0(a: int, b: int): int { if a < b then a else b }

  lemma MulNonneg(a: int, b: int)
    ensures a >= 0 && b >= 0 ==> a * b >= 0
  {
  }

  lemma DivMod(j: int, n: int)
    requires n > 0
    ensures (j / n) * n + j % n == j && 0 <= j % n < n
  {
  }

  // ---------------------------------------------------------------------
  // search_products

  /** SQL `LIKE` as SQLite evaluates it: `%` matches any run, `_` any single
      character, and letters compare without regard to ASCII case. */
  function Like(p: string, t: string): bool
    decreases |p| + |t|
  {
    if |p| == 0 then |t| == 0
    else if p[0] == '%' then Like(p[1..], t) || (|t| > 0 && Like(p, t[1..]))
    else |t| > 0 && (p[0] == '_' || Lower(p[0]) == Lower(t[0])) && Like(p[1..], t[1..])
  }

  predicate NoWildcards(q: string) {
    forall i :: 0 <= i < |q| ==> q[i] != '%' && q[i] != '_'
  }

  /** `f"%{query}%"`. */
  function SubstringPattern(q: string): string {
    "%" + q + "%"
  }

  /** `p%` matches exactly the texts that start with `p`, ignoring case. */
  lemma {:induction false} LikePrefix(q: string, t: string)
    requires NoWildcards(q)
    ensures Like(q + "%", t) <==> IsPrefix(LowerStr(q), LowerStr(t))
    decreases |q|
  {
    if |q| == 0 {
      assert q + "%" == "%";
      LikeAny(t);
      assert IsPrefix(LowerStr(q), LowerStr(t));
    } else {
      assert (q + "%")[1..] == q[1..] + "%";
      if |t| > 0 {
        LikePrefix(q[1..], t[1..]);
        assert LowerStr(q) == [Lower(q[0])] + LowerStr(q[1..]);
        assert LowerStr(t) == [Lower(t[0])] + LowerStr(t[1..]);
      }
    }
  }

  /** `%` matches every text. */
  lemma {:induction false} LikeAny(t: string)
    ensures Like("%", t)
    decreases |t|
  {
    if |t| > 0 {
      LikeAny(t[1..]);
    }
  }

  /** `%q%` matches a text exactly when `q` occurs in it, ignoring case. */
  lemma {:induction false} LikeSubstring(q: string, t: string)
    requires NoWildcards(q)
    ensures Like(SubstringPattern(q), t) <==> Contains(LowerStr(t), LowerStr(q))
    decreases |t|
  {
    var p := SubstringPattern(q);
    assert p[1..] == q + "%";
    LikePrefix(q, t);
    if |t| > 0 {
      LikeSubstring(q, t[1..]);
      ContainsStep(LowerStr(t), LowerStr(q));
      assert LowerStr(t)[1..] == LowerStr(t[1..]);
    } else {
      ContainsEmpty(LowerStr(q));
    }
  }

  lemma ContainsStep(s: string, p: string)
    requires |s| > 0
    ensures Contains(s, p) <==> IsPrefix(p, s) || Contains(s[1..], p)
  {
    if Contains(s, p) {
      var k: nat :| k <= |s| && OccursAt(s, p, k);
      if k > 0 {
        assert OccursAt(s[1..], p, k - 1);
      } else {
        assert s[..|p|] == p;
      }
    }
    if Contains(s[1..], p) {
      var k: nat :| k <= |s[1..]| && OccursAt(s[1..], p, k);
      assert OccursAt(s, p, k + 1);
    }
    if IsPrefix(p, s) {
      assert OccursAt(s, p, 0);
    }
  }

  lemma ContainsEmpty(p: string)
    ensures Contains("", p) <==> |p| == 0
  {
    if |p| == 0 {
      assert OccursAt("", p, 0);
    }
  }

  /** `search_products`: rows whose name or description matches
      `%query%`, in the given category unless it is empty, in query order. */
  function SearchProducts(db: Db, query: string, category: string := "", limit: int := 20): (r: seq<Row>)
    ensures !db.online ==> r == []
    ensures db.online ==> TopOf(r, db.rows, Matching(SubstringPattern(query), category), limit)
  {
    if !db.online then []
    else
      TakeRankedIsTop(db.rows, Matching(SubstringPattern(query), category), limit);
      Take(Ranked(db.rows, Matching(SubstringPattern(query), category)), limit)
  }

  /** For a query without wildcards, a row is found exactly when the query
      occurs in its name or description, ignoring case, and it is in the
      requested category. */
  lemma SearchMeansSubstring(x: Row, query: string, category: string)
    requires NoWildcards(query)
    ensures Keep(Matching(SubstringPattern(query), category), x) <==>
            (Contains(LowerStr(x.name), LowerStr(query)) || Contains(LowerStr(x.description), LowerStr(query)))
            && (category == "" || x.category == category)
  {
    LikeSubstring(query, x.name);
    LikeSubstring(query, x.description);
  }

  // ---------------------------------------------------------------------
  // update_product, add_product, delete_product

  /** The allowed fields present in the supplied product data. */
  datatype Patch = Patch(name: Option<string>, category: Option<string>, price: Option<real>,
                         rating: Option<real>, platform: Option<string>, url: Option<string>,
                         specs: Option<string>, qualityScore: Option<real>,
                         finalScore: Option<real>, imageUrl: Option<string>,
                         description: Option<string>)

  predicate EmptyPatch(p: Patch) {
    p.name.None? && p.category.None? && p.price.None? && p.rating.None? && p.platform.None?
    && p.url.None? && p.specs.None? && p.qualityScore.None? && p.finalScore.None?
    && p.imageUrl.None? && p.description.None?
  }

  /** The row with each present field overwritten. */
  function Apply(r: Row, p: Patch): (r': Row)
    ensures r'.id == r.id
    ensures EmptyPatch(p) ==> r' == r
  {
    Row(r.id, p.name.GetOr(r.name), p.category.GetOr(r.category), p.price.GetOr(r.price),
        p.rating.GetOr(r.rating), p.platform.GetOr(r.platform), p.url.GetOr(r.url),
        p.specs.GetOr(r.specs), p.qualityScore.GetOr(r.qualityScore),
        p.finalScore.GetOr(r.finalScore), p.imageUrl.GetOr(r.imageUrl),
        p.description.GetOr(r.description))
  }

  function UpdateRows(rows: seq<Row>, id: int, p: Patch): (r: seq<Row>)
    ensures |r| == |rows|
    ensures forall i :: 0 <= i < |rows| ==> r[i] == if rows[i].id == id then Apply(rows[i], p) else rows[i]
  {
    if |rows| == 0 then []
    else [if rows[0].id == id then Apply(rows[0], p) else rows[0]] + UpdateRows(rows[1..], id, p)
  }

  /** `update_product`: the new table and the returned flag. */
  function UpdateProduct(db: Db, id: int, p: Patch): (res: (Db, bool))
    ensures EmptyPatch(p) || !db.online ==> res == (db, false)
    ensures !EmptyPatch(p) && db.online ==> (res.1 <==> HasId(db.rows, id))
    ensures res.0.nextId == db.nextId && res.0.online == db.online
    ensures |res.0.rows| == |db.rows|
    ensures forall i :: 0 <= i < |db.rows| ==>
              res.0.rows[i] == if db.online && db.rows[i].id == id then Apply(db.rows[i], p) else db.rows[i]
  {
    if EmptyPatch(p) || !db.online then (db, false)
    else (db.(rows := UpdateRows(db.rows, id, p)), HasId(db.rows, id))
  }

  lemma UpdateKeepsValid(db: Db, id: int, p: Patch)
    requires Valid(db)
    ensures Valid(UpdateProduct(db, id, p).0)
  {
  }

  /** The row `add_product` writes for absent fields. */
  function DefaultRow(id: int): Row {
    Row(id, "", "general", 0.0, 4.0, "", "", "{}", 0.0, 0.0, "", "")
  }

  /** `add_product`: appends the defaults overwritten by the supplied fields
      under the next id, and returns that id. */
  function AddProduct(db: Db, data: Patch): (res: (Db, Option<int>))
    ensures !db.online ==> res == (db, None)
    ensures db.online ==> res.1 == Some(db.nextId) && res.0.nextId == db.nextId + 1
    ensures db.online ==> res.0.rows == db.rows + [Apply(DefaultRow(db.nextId), data)]
    ensures Valid(db) ==> Valid(res.0)
  {
    if !db.online then (db, None)
    else (Db(db.rows + [Apply(DefaultRow(db.nextId), data)], db.nextId + 1, true), Some(db.nextId))
  }

  /** `get_product_by_id` on the table rows. */
  function FindById(rows: seq<Row>, id: int): (r: Option<Row>)
    ensures r.Some? <==> HasId(rows, id)
    ensures r.Some? ==> r.value in rows && r.value.id == id
  {
    if |rows| == 0 then None
    else if rows[0].id == id then Some(rows[0])
    else
      var r := FindById(rows[1..], id);
      assert HasId(rows, id) <==> HasId(rows[1..], id) by {
        if HasId(rows, id) {
          var i :| 0 <= i < |rows| && rows[i].id == id;
          assert rows[1..][i - 1].id == id;
        }
        if HasId(rows[1..], id) {
          var i :| 0 <= i < |rows[1..]| && rows[1..][i].id == id;
          assert rows[i + 1].id == id;
        }
      }
      r
  }

  /** The id `add_product` returns finds the row it wrote, with the defaults
      in every field the data left out. */
  lemma AddThenFind(db: Db, data: Patch)
    requires Valid(db) && db.online
    ensures var (db', id) := AddProduct(db, data);
            id.Some? && FindById(db'.rows, id.value) == Some(Apply(DefaultRow(db.nextId), data))
  {
    var (db', id) := AddProduct(db, data);
    var i := |db.rows|;
    FindLast(db.rows, Apply(DefaultRow(db.nextId), data));
  }

  lemma {:induction false} FindLast(rows: seq<Row>, x: Row)
    requires IdsBelow(rows, x.id)
    ensures FindById(rows + [x], x.id) == Some(x)
    decreases |rows|
  {
    if |rows| > 0 {
      assert (rows + [x])[1..] == rows[1..] + [x];
      FindLast(rows[1..], x);
    }
  }

  function Without(rows: seq<Row>, id: int): (r: seq<Row>)
    ensures forall x :: x in r <==> x in rows && x.id != id
    ensures |r| <= |rows|
    ensures |r| < |rows| <==> HasId(rows, id)
  {
    if |rows| == 0 then []
    else
      var rest := Without(rows[1..], id);
      assert rows == [rows[0]] + rows[1..];
      HasIdCons(rows, id);
      if rows[0].id == id then rest else [rows[0]] + rest
  }

  lemma HasIdCons(rows: seq<Row>, id: int)
    requires |rows| > 0
    ensures HasId(rows, id) <==> rows[0].id == id || HasId(rows[1..], id)
  {
    if HasId(rows, id) && rows[0].id != id {
      var i :| 0 <= i < |rows| && rows[i].id == id;
      assert rows[1..][i - 1].id == id;
    }
    if HasId(rows[1..], id) {
      var i :| 0 <= i < |rows[1..]| && rows[1..][i].id == id;
      assert rows[i + 1].id == id;
    }
  }

  /** Removing rows keeps ids unique and below the next id. */
  lemma WithoutKeepsValid(rows: seq<Row>, id: int, n: int)
    ensures UniqueIds(rows) ==> UniqueIds(Without(rows, id))
    ensures IdsBelow(rows, n) ==> IdsBelow(Without(rows, id), n)
  {
    if UniqueIds(rows) {
      WithoutKeepsUnique(rows, id);
    }
    var r := Without(rows, id);
    forall k | 0 <= k < |r| ensures r[k] in rows {
      assert r[k] in r;
    }
  }

  lemma {:induction false} WithoutKeepsUnique(rows: seq<Row>, id: int)
    requires UniqueIds(rows)
    ensures UniqueIds(Without(rows, id))
    decreases |rows|
  {
    if |rows| > 0 {
      WithoutKeepsUnique(rows[1..], id);
      var rest := Without(rows[1..], id);
      if rows[0].id != id {
        forall k | 0 <= k < |rest| ensures rest[k].id != rows[0].id {
          assert rest[k] in rest;
          var m :| 0 <= m < |rows[1..]| && rows[1..][m] == rest[k];
          assert rows[m + 1] == rest[k];
        }
      }
    }
  }

  /** `delete_product`: removes the rows with that id and reports whether
      there were any. */
  function DeleteProduct(db: Db, id: int): (res: (Db, bool))
    ensures !db.online ==> res == (db, false)
    ensures db.online ==> (res.1 <==> HasId(db.rows, id))
    ensures db.online ==> forall x :: x in res.0.rows <==> x in db.rows && x.id != id
    ensures db.online ==> FindById(res.0.rows, id).None?
    ensures Valid(db) ==> Valid(res.0)
  {
    if !db.online then (db, false)
    else
      var rows := Without(db.rows, id);
      WithoutKeepsValid(db.rows, id, db.nextId);
      assert forall i :: 0 <= i < |rows| ==> rows[i] in rows;
      (db.(rows := rows), |rows| < |db.rows|)
  }
}

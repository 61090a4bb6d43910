/**
 * The read-only product routes, as functions of the `products` array: the
 * paginated, category-filtered list, lookup by id, search by name, and the
 * per-category counts that the stats route accumulates.
 */
module ProductQueries {
  import opened Wrappers
  import opened Js
  import opened Records

  /** The failure a handler forwards with `next(new NotFoundError(...))`. */
  datatype Error = NotFound

  /** The page the list route serves when `page` is missing, not a number, or 0. */
  const DefaultPage := 1
  /** The page size the list route uses when `limit` is missing, not a number, or 0. */
  const DefaultLimit := 5

  /** The list route's query, with `page` and `limit` as `parseInt` left them (None for NaN). */
  datatype ListQuery = ListQuery(category: Option<string>, page: Option<int>, limit: Option<int>)

  /** The list route's response body `{ page, total, products }`. */
  datatype Page = Page(page: int, total: nat, products: seq<Record>)

  // ---------------------------------------------------------------- list

  /** The filter callback `p => p.category === c`. */
  function CategoryIs(c: string): Record -> bool
  {
    p => HasCategory(p, c)
  }

  /** The records of category `c`, in collection order. */
  function InCategory(s: seq<Record>, c: string): (r: seq<Record>)
    ensures forall p :: p in r ==> p in s && HasCategory(p, c)
    ensures forall i :: 0 <= i < |s| && HasCategory(s[i], c) ==> s[i] in r
  {
    Filter(s, CategoryIs(c))
  }

  /**
   * The list route's filter: applied only when the query category is truthy,
   * that is a non-empty string. It keeps each record of that category as often
   * as it occurs and drops every other record; with no truthy category it
   * keeps every record.
   */
  function CategoryFilter(s: seq<Record>, category: Option<string>): (r: seq<Record>)
    ensures forall p ::
              multiset(r)[p] ==
                if category.Some? && category.value != "" && !HasCategory(p, category.value) then 0
                else multiset(s)[p]
  {
    if category.Some? && category.value != "" then
      assert forall p ::
               multiset(InCategory(s, category.value))[p] ==
                 if HasCategory(p, category.value) then multiset(s)[p] else 0 by {
        forall p {
          FilterMultiplicity(s, CategoryIs(category.value), p);
        }
      }
      InCategory(s, category.value)
    else
      s
  }

  /** `parseInt(req.query.page) || 1` */
  function PageOf(q: ListQuery): int
  {
    OrDefault(q.page, DefaultPage)
  }

  /** `parseInt(req.query.limit) || 5` */
  function LimitOf(q: ListQuery): int
  {
    OrDefault(q.limit, DefaultLimit)
  }

  /**
   * `(page - 1) * limit`, the index of the first record of `page`, written as
   * steps of `limit` from page 1 so that unfolding it stays linear; it is the
   * product by `PageStartIsProduct`.
   */
  function PageStart(page: int, limit: int): (r: int)
    ensures page >= 1 && limit >= 0 ==> r >= 0
    decreases if page < 1 then 1 - page else page - 1
  {
    if page == 1 then 0
    else if page > 1 then PageStart(page - 1, limit) + limit
    else PageStart(page + 1, limit) - limit
  }

  /** The stepwise page start is the product the route computes. */
  lemma {:induction false} PageStartIsProduct(page: int, limit: int)
    ensures PageStart(page, limit) == (page - 1) * limit
    decreases if page < 1 then 1 - page else page - 1
  {
    if page > 1 {
      PageStartIsProduct(page - 1, limit);
      assert (page - 2) * limit + limit == (page - 1) * limit;
    } else if page < 1 {
      PageStartIsProduct(page + 1, limit);
      assert page * limit - limit == (page - 1) * limit;
    }
  }

  /** `GET /`: filter a copy of the collection, then serve the window `[(page-1)*limit, (page-1)*limit+limit)` of it. */
  function ListProducts(s: seq<Record>, q: ListQuery): (r: Page)
    ensures r.page != 0
    ensures r.total == |CategoryFilter(s, q.category)|
    ensures |r.products| <= r.total
    ensures forall p :: p in r.products ==> p in CategoryFilter(s, q.category)
  {
    var result := CategoryFilter(s, q.category);
    var page := PageOf(q);
    var limit := LimitOf(q);
    var start := PageStart(page, limit);
    var end := start + limit;
    var paginated := Slice(result, start, end);
    assert forall p :: p in paginated ==> p in result by {
      forall p | p in paginated ensures p in result {
        var i :| 0 <= i < |paginated| && paginated[i] == p;
      }
    }
    Page(page, |result|, paginated)
  }

  /**
   * With a positive effective page and limit, the products are the filtered
   * records from `PageStart(page, limit)`, that is `(page-1)*limit`, on, at
   * most `limit` of them, none once the
   * start reaches `total`; the echoed page is the effective one.
   */
  lemma ListPageWindow(s: seq<Record>, q: ListQuery)
    requires PageOf(q) >= 1 && LimitOf(q) >= 1
    ensures var r := ListProducts(s, q);
      var start := PageStart(PageOf(q), LimitOf(q));
      && r.page == PageOf(q)
      && |r.products| <= LimitOf(q)
      && (r.products == [] <==> start >= r.total)
      && (start < r.total ==>
            r.products == CategoryFilter(s, q.category)[start..if start + LimitOf(q) < r.total then start + LimitOf(q) else r.total])
  {
    var f := CategoryFilter(s, q.category);
    var start := PageStart(PageOf(q), LimitOf(q));
    assert ListProducts(s, q).products == Slice(f, start, start + LimitOf(q));
    SliceWindow(f, start, LimitOf(q));
  }

  /** Page 1 with a negative limit `-k` is everything but the last `k` filtered records: JavaScript's slice counts a negative end from the back. */
  lemma ListNegativeLimit(s: seq<Record>, q: ListQuery)
    requires PageOf(q) == 1 && LimitOf(q) < 0
    ensures var f := CategoryFilter(s, q.category);
      ListProducts(s, q).products == f[..if |f| + LimitOf(q) < 0 then 0 else |f| + LimitOf(q)]
  {
  }

  /**
   * Walking pages 1, 2, ... of a positive size `limit` until the first empty
   * one (the walk from page `k`'s window is page `k` and then the rest, by
   * `WindowsArePages`): the windows together yield every filtered record
   * once, in order, so the page lengths sum to the `total` every page reports.
   */
  lemma PagesCoverFiltered(s: seq<Record>, category: Option<string>, limit: int)
    requires limit >= 1
    ensures Windows(CategoryFilter(s, category), 0, limit) == CategoryFilter(s, category)
    ensures |Windows(CategoryFilter(s, category), 0, limit)| == ListProducts(s, ListQuery(category, Some(1), Some(limit))).total
  {
    var f := CategoryFilter(s, category);
    WindowsCoverRest(f, 0, limit);
    assert f[0..] == f;
  }

  /** Page `k` of size `limit` is the slice of filtered records from `PageStart(k, limit)`, `limit` long. */
  lemma PageIsSlice(s: seq<Record>, category: Option<string>, limit: int, k: int)
    requires limit >= 1 && k >= 1
    ensures var f := CategoryFilter(s, category);
      ListProducts(s, ListQuery(category, Some(k), Some(limit))).products == Slice(f, PageStart(k, limit), PageStart(k, limit) + limit)
  {
    var q := ListQuery(category, Some(k), Some(limit));
    assert PageOf(q) == k && LimitOf(q) == limit;
  }

  /**
   * The walk from page `k`'s window on is page `k` as the list route serves
   * it, followed by the walk from page `k + 1`'s window: the windows that
   * `PagesCoverFiltered` walks are the route's own pages.
   */
  lemma WindowsArePages(s: seq<Record>, category: Option<string>, limit: int, k: int)
    requires limit >= 1 && k >= 1
    ensures var f := CategoryFilter(s, category);
      Windows(f, PageStart(k, limit), limit) ==
        ListProducts(s, ListQuery(category, Some(k), Some(limit))).products + Windows(f, PageStart(k + 1, limit), limit)
  {
    PageIsSlice(s, category, limit, k);
    WindowsStep(CategoryFilter(s, category), PageStart(k, limit), limit);
  }

  // ---------------------------------------------------------------- get by id

  /** `products.findIndex(p => p.id === id)`, with None for -1. */
  function FindIndex(s: seq<Record>, id: string): (r: Option<nat>)
    ensures r.Some? ==> r.value < |s| && HasId(s[r.value], id)
    ensures r.Some? ==> forall j :: 0 <= j < r.value ==> !HasId(s[j], id)
    ensures r.None? <==> forall j :: 0 <= j < |s| ==> !HasId(s[j], id)
  {
    if s == [] then None
    else if HasId(s[0], id) then Some(0)
    else match FindIndex(s[1..], id)
      case None => None
      case Some(i) => Some(i + 1)
  }

  /** `GET /:id`: the first record with that id, or NotFound when there is none. */
  function GetById(s: seq<Record>, id: string): (r: Result<Record, Error>)
    ensures r.Err? <==> forall j :: 0 <= j < |s| ==> !HasId(s[j], id)
    ensures r.Err? ==> r.error == NotFound
    ensures r.Ok? ==>
      exists i :: 0 <= i < |s| && s[i] == r.value && HasId(s[i], id) && forall j :: 0 <= j < i ==> !HasId(s[j], id)
  {
    match FindIndex(s, id)
    case None => Err(NotFound)
    case Some(i) => Ok(s[i])
  }

  // ---------------------------------------------------------------- search

  /** Every record has a string name; otherwise `p.name.toLowerCase()` throws. */
  predicate AllNamed(s: seq<Record>)
  {
    forall i :: 0 <= i < |s| ==> Named(s[i])
  }

  /** The filter callback `p => p.name.toLowerCase().includes(term.toLowerCase())`. */
  function NameIncludes(term: string): Record -> bool
  {
    p => Named(p) && Includes(ToLower(NameOf(p)), ToLower(term))
  }

  /** `GET /search`: the records whose lower-cased name contains the lower-cased term, in order, unpaginated. */
  function SearchByName(s: seq<Record>, term: string): (r: seq<Record>)
    requires AllNamed(s)
    ensures |r| <= |s|
    ensures forall p :: p in r ==> p in s && Includes(ToLower(NameOf(p)), ToLower(term))
    ensures forall i :: 0 <= i < |s| && Includes(ToLower(NameOf(s[i])), ToLower(term)) ==> s[i] in r
  {
    Filter(s, NameIncludes(term))
  }

  /** A record is found exactly when the lower-cased term occurs at some position of its lower-cased name. */
  lemma SearchFindsOccurrences(s: seq<Record>, term: string, p: Record)
    requires AllNamed(s)
    ensures p in SearchByName(s, term) <==>
      p in s && exists i :: OccursAt(ToLower(NameOf(p)), ToLower(term), i)
  {
    if p in s {
      var i :| 0 <= i < |s| && s[i] == p;
      var name, t := ToLower(NameOf(p)), ToLower(term);
      IncludesIffOccurs(name, t);
      if Includes(name, t) {
        assert p in SearchByName(s, term);
        var k :| OccursAt(name, t, k);
        assert OccursAt(ToLower(NameOf(p)), ToLower(term), k);
        assert exists j :: OccursAt(ToLower(NameOf(p)), ToLower(term), j);
      } else {
        assert p !in SearchByName(s, term);
      }
    }
  }

  /** Searching is case-insensitive: any casing of a term finds what its lower-case form finds. */
  lemma SearchIgnoresCase(s: seq<Record>, term: string)
    requires AllNamed(s)
    ensures SearchByName(s, term) == SearchByName(s, ToLower(term))
  {
    ToLowerIdempotent(term);
    assert NameIncludes(term) == NameIncludes(ToLower(term));
  }

  /** The empty term finds every record, in order. */
  lemma SearchEmptyTermFindsAll(s: seq<Record>)
    requires AllNamed(s)
    ensures SearchByName(s, "") == s
  {
    forall i | 0 <= i < |s| ensures NameIncludes("")(s[i]) {
      IncludesEmpty(ToLower(NameOf(s[i])));
    }
    FilterKeepsAll(s, NameIncludes(""));
  }

  // ---------------------------------------------------------------- stats

  /** Every record has a string category, which is then its own key in the stats object. */
  predicate AllCategorised(s: seq<Record>)
  {
    forall i :: 0 <= i < |s| ==> Categorised(s[i])
  }

  /** The categories present in the collection. */
  function Categories(s: seq<Record>): set<string>
    requires AllCategorised(s)
  {
    set i | 0 <= i < |s| :: CategoryOf(s[i])
  }

  /** How many records are in category `c`. */
  function CountCategory(s: seq<Record>, c: string): nat
  {
    |InCategory(s, c)|
  }

  /** The stats object: each category present, with the number of its records. */
  function CategoryCounts(s: seq<Record>): map<string, nat>
    requires AllCategorised(s)
  {
    map c | c in Categories(s) :: CountCategory(s, c)
  }

  /** `stats[c] = (stats[c] || 0) + 1` */
  function Bump(stats: map<string, nat>, c: string): map<string, nat>
  {
    stats[c := (if c in stats then stats[c] else 0) + 1]
  }

  /** A category has a positive count exactly when some record is in it. */
  lemma {:induction false} CountPositiveIffPresent(s: seq<Record>, c: string)
    requires AllCategorised(s)
    ensures CountCategory(s, c) > 0 <==> c in Categories(s)
  {
    FilterEmptyIff(s, CategoryIs(c));
    if c in Categories(s) {
      var i :| 0 <= i < |s| && CategoryOf(s[i]) == c;
      assert CategoryIs(c)(s[i]);
    }
  }

  /** Counting one more record bumps its own category and no other. */
  lemma CountCategorySnoc(s: seq<Record>, p: Record, c: string)
    ensures CountCategory(s + [p], c) == CountCategory(s, c) + (if HasCategory(p, c) then 1 else 0)
  {
    FilterAppend(s, [p], CategoryIs(c));
  }

  /** Adding a record adds its category to those present. */
  lemma CategoriesSnoc(s: seq<Record>, p: Record)
    requires AllCategorised(s) && Categorised(p)
    ensures AllCategorised(s + [p])
    ensures Categories(s + [p]) == Categories(s) + {CategoryOf(p)}
  {
    var t := s + [p];
    var c0 := CategoryOf(p);
    assert AllCategorised(t);
    assert Categories(t) == Categories(s) + {c0} by {
      forall c | c in Categories(t) ensures c in Categories(s) + {c0} {
        var i :| 0 <= i < |t| && CategoryOf(t[i]) == c;
        if i < |s| {
          assert t[i] == s[i];
        }
      }
      forall c | c in Categories(s) ensures c in Categories(t) {
        var i :| 0 <= i < |s| && CategoryOf(s[i]) == c;
        assert t[i] == s[i];
      }
      assert t[|s|] == p;
    }
  }

  /** Adding a record to the collection is one step of the stats loop. */
  lemma CategoryCountsSnoc(s: seq<Record>, p: Record)
    requires AllCategorised(s) && Categorised(p)
    ensures AllCategorised(s + [p])
    ensures CategoryCounts(s + [p]) == Bump(CategoryCounts(s), CategoryOf(p))
  {
    var t := s + [p];
    var c0 := CategoryOf(p);
    CategoriesSnoc(s, p);
    var lhs, rhs := CategoryCounts(t), Bump(CategoryCounts(s), c0);
    assert lhs.Keys == rhs.Keys;
    forall c | c in lhs ensures lhs[c] == rhs[c] {
      CountCategorySnoc(s, p, c);
      if c == c0 && c !in Categories(s) {
        CountPositiveIffPresent(s, c);
      }
    }
  }

  /** The counts of the stats object: each key a present category, each count at least one, and together they count every record once. */
  lemma {:induction false} CategoryCountsSumToLength(s: seq<Record>)
    requires AllCategorised(s)
    ensures CategoryCounts(s).Keys == Categories(s)
    ensures forall c :: c in CategoryCounts(s) ==> CategoryCounts(s)[c] >= 1
    ensures Total(CategoryCounts(s)) == |s|
  {
    forall c | c in CategoryCounts(s) ensures CategoryCounts(s)[c] >= 1 {
      CountPositiveIffPresent(s, c);
    }
    if s != [] {
      var init := s[..|s| - 1];
      var p := s[|s| - 1];
      assert s == init + [p];
      assert AllCategorised(init);
      CategoryCountsSumToLength(init);
      CategoryCountsSnoc(init, p);
      TotalBump(CategoryCounts(init), CategoryOf(p));
    }
  }

  /** The sum of the counts of a stats object. */
  ghost function Total(m: map<string, nat>): nat
    decreases |m|
  {
    if m == map[] then 0
    else
      var k :| k in m;
      assert |(m - {k}).Keys| < |m.Keys| by {
        assert (m - {k}).Keys == m.Keys - {k};
      }
      m[k] + Total(m - {k})
  }

  /** The sum takes every key once, whichever is taken first. */
  lemma {:induction false} TotalRemove(m: map<string, nat>, k: string)
    requires k in m
    ensures Total(m) == m[k] + Total(m - {k})
    decreases |m|
  {
    var j :| j in m && Total(m) == m[j] + Total(m - {j});
    if j != k {
      assert (m - {j}).Keys == m.Keys - {j};
      assert (m - {k}).Keys == m.Keys - {k};
      TotalRemove(m - {j}, k);
      TotalRemove(m - {k}, j);
      assert m - {j} - {k} == m - {k} - {j};
    }
  }

  /** One step of the stats loop adds one to the sum of the counts. */
  lemma TotalBump(m: map<string, nat>, c: string)
    ensures Total(Bump(m, c)) == Total(m) + 1
  {
    var b := Bump(m, c);
    TotalRemove(b, c);
    if c in m {
      assert b - {c} == m - {c};
      TotalRemove(m, c);
    } else {
      assert b - {c} == m;
    }
  }
}

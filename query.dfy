/** The query primitives the controllers chain on a collection: `find` with a
    condition, `sort`, `skip`/`limit`, `countDocuments`, the page parameters and
    the `$group`/`$sum` aggregations over articles. */
module Query {

  import opened Common
  import opened NewsModel

  /** `find(condition)`: the matching documents, in collection order. */
  function Filter<T>(s: seq<T>, p: T -> bool): (r: seq<T>)
    ensures |r| <= |s|
    ensures forall k :: 0 <= k < |r| ==> p(r[k]) && r[k] in s
    ensures forall k :: 0 <= k < |s| && p(s[k]) ==> s[k] in r
  {
    if s == [] then []
    else
      var rest := Filter(s[1..], p);
      assert forall k :: 1 <= k < |s| ==> s[k] == s[1..][k - 1];
      (if p(s[0]) then [s[0]] else []) + rest
  }

  /** A condition every document meets selects the whole collection. */
  lemma {:induction false} FilterAll<T>(s: seq<T>, p: T -> bool)
    requires forall x :: x in s ==> p(x)
    ensures Filter(s, p) == s
  {
    if s != [] {
      assert forall x :: x in s[1..] ==> x in s;
      FilterAll(s[1..], p);
      assert s == [s[0]] + s[1..];
    }
  }

  /** Selecting keeps a property every element has, and keeps apart elements that
      were pairwise apart in collection order. */
  lemma {:induction false} FilterKeeps<T>(s: seq<T>, p: T -> bool, inv: T -> bool, apart: (T, T) -> bool)
    requires forall k :: 0 <= k < |s| ==> inv(s[k])
    requires forall i, j :: 0 <= i < j < |s| ==> apart(s[i], s[j])
    ensures forall k :: 0 <= k < |Filter(s, p)| ==> inv(Filter(s, p)[k])
    ensures forall i, j :: 0 <= i < j < |Filter(s, p)| ==> apart(Filter(s, p)[i], Filter(s, p)[j])
  {
    if s != [] {
      var rest := s[1..];
      assert forall k :: 0 <= k < |rest| ==> rest[k] == s[k + 1];
      FilterKeeps(rest, p, inv, apart);
      var fr := Filter(rest, p);
      forall k | 0 <= k < |fr| ensures apart(s[0], fr[k]) {
        var m :| 0 <= m < |rest| && rest[m] == fr[k];
        assert s[m + 1] == fr[k];
      }
      var r := Filter(s, p);
      if p(s[0]) {
        assert r == [s[0]] + fr;
        forall i, j | 0 <= i < j < |r| ensures apart(r[i], r[j]) {
          assert r[j] == fr[j - 1];
          if i > 0 {
            assert r[i] == fr[i - 1];
          }
        }
      } else {
        assert r == fr;
      }
    }
  }

  /** A sort key compared lexicographically; a descending sort negates its fields. */
  datatype Key = Key(major: int, minor: int)

  predicate KeyLe(a: Key, b: Key) {
    a.major < b.major || (a.major == b.major && a.minor <= b.minor)
  }

  predicate SortedBy<T>(s: seq<T>, key: T -> Key) {
    forall i, j :: 0 <= i < j < |s| ==> KeyLe(key(s[i]), key(s[j]))
  }

  function Insert<T>(x: T, s: seq<T>, key: T -> Key): (r: seq<T>)
    requires SortedBy(s, key)
    ensures |r| == |s| + 1 && multiset(r) == multiset(s) + multiset{x}
    ensures r[0] == x || (|s| > 0 && r[0] == s[0])
    ensures SortedBy(r, key)
  {
    if s == [] then [x]
    else if KeyLe(key(x), key(s[0])) then [x] + s
    else
      var rest := s[1..];
      assert s == [s[0]] + rest;
      var t := Insert(x, rest, key);
      InsertBehindHead(x, s, key, t);
      [s[0]] + t
  }

  /** The head of a sorted list stays in front of an insertion into its tail when
      the inserted element does not sort before it. */
  lemma InsertBehindHead<T>(x: T, s: seq<T>, key: T -> Key, t: seq<T>)
    requires SortedBy(s, key) && |s| > 0 && !KeyLe(key(x), key(s[0]))
    requires multiset(t) == multiset(s[1..]) + multiset{x} && SortedBy(t, key)
    ensures SortedBy([s[0]] + t, key)
  {
    var r := [s[0]] + t;
    forall j | 0 <= j < |t| ensures KeyLe(key(s[0]), key(t[j])) {
      assert t[j] in multiset(t);
      if t[j] != x {
        assert t[j] in multiset(s[1..]);
        var m :| 0 <= m < |s[1..]| && s[1..][m] == t[j];
        assert s[m + 1] == t[j];
      }
    }
    forall i, j | 0 <= i < j < |r| ensures KeyLe(key(r[i]), key(r[j])) {
      assert r[j] == t[j - 1];
      if i > 0 {
        assert r[i] == t[i - 1];
      }
    }
  }

  /** `sort(...)`: the same documents, ordered by the key. */
  function SortBy<T>(s: seq<T>, key: T -> Key): (r: seq<T>)
    ensures |r| == |s| && multiset(r) == multiset(s)
    ensures SortedBy(r, key)
  {
    if s == [] then []
    else
      assert s == [s[0]] + s[1..];
      Insert(s[0], SortBy(s[1..], key), key)
  }

  /** How many of `n` documents remain after skipping `skip`, capped at `limit`. */
  function WindowLength(n: nat, skip: nat, limit: nat): nat {
    if skip >= n then 0 else if n - skip < limit then n - skip else limit
  }

  /** `skip(skip).limit(limit)`: at most `limit` documents starting at position `skip`. */
  function Window<T>(s: seq<T>, skip: nat, limit: nat): (r: seq<T>)
    ensures |r| == WindowLength(|s|, skip, limit)
    ensures forall k :: 0 <= k < |r| ==> r[k] == s[skip + k]
  {
    if skip >= |s| then []
    else if |s| - skip < limit then s[skip..]
    else s[skip..skip + limit]
  }

  /** `parseInt(param, 10) || fallback`: `None` stands for NaN; NaN and 0 are falsy. */
  function ParamOr(param: Option<int>, fallback: int): (r: int)
    ensures param.Some? && param.value != 0 ==> r == param.value
    ensures param.None? || param.value == 0 ==> r == fallback
  {
    if param.Some? && param.value != 0 then param.value else fallback
  }

  /** `Math.ceil(total / limit)` for a non-zero limit. */
  function CeilDiv(total: nat, limit: int): (r: int)
    requires limit != 0
    ensures limit > 0 ==> (r - 1) * limit < total <= r * limit
    ensures limit < 0 ==> r * limit <= total < (r - 1) * limit
  {
    if limit > 0 then
      var q, m := total / limit, total % limit;
      assert total == q * limit + m;
      if m == 0 then q else q + 1
    else
      var q, m := total / (-limit), total % (-limit);
      assert total == q * (-limit) + m;
      -q
  }

  function Abs(n: int): nat {
    if n < 0 then -n else n
  }

  /** One page of a listing and the envelope fields that describe it. */
  datatype Page<T> = Page(count: nat, total: nat, totalPages: int, currentPage: int, data: seq<T>)

  /** The page arithmetic the listing handlers share: `page` defaults to 1 and
      `limit` to `defaultLimit`, `skip = (page - 1) * limit`, the sorted matches are
      cut with `skip`/`limit`, and `totalPages = ceil(total / limit)`. MongoDB rejects a
      negative skip; a negative limit returns at most its absolute value. */
  function Paginate<T>(sorted: seq<T>, total: nat, pageParam: Option<int>,
                       limitParam: Option<int>, defaultLimit: int): (r: Result<Page<T>>)
    requires defaultLimit > 0
    ensures var page, limit := ParamOr(pageParam, 1), ParamOr(limitParam, defaultLimit);
      && limit != 0
      && (r.Err? <==> (page - 1) * limit < 0)
      && (r.Err? ==> r.error == Internal(NegativeSkip))
      && (r.Ok? ==>
            && r.value.currentPage == page && r.value.total == total
            && r.value.totalPages == CeilDiv(total, limit)
            && r.value.count == |r.value.data| <= Abs(limit)
            && |r.value.data| == WindowLength(|sorted|, (page - 1) * limit, Abs(limit))
            && forall k :: 0 <= k < |r.value.data| ==>
                 (page - 1) * limit + k < |sorted| && r.value.data[k] == sorted[(page - 1) * limit + k])
  {
    var page, limit := ParamOr(pageParam, 1), ParamOr(limitParam, defaultLimit);
    var skip := (page - 1) * limit;
    if skip < 0 then Err(Internal(NegativeSkip))
    else
      var data := Window(sorted, skip, Abs(limit));
      Ok(Page(|data|, total, CeilDiv(total, limit), page, data))
  }

  /** `data` is what `skip((page - 1) * limit).limit(limit)` leaves of `sorted` for
      the page and limit parameters, the limit defaulting to `defaultLimit`. */
  ghost predicate IsWindowOf<T>(data: seq<T>, sorted: seq<T>, pageParam: Option<int>,
                          limitParam: Option<int>, defaultLimit: int)
  {
    var page, limit := ParamOr(pageParam, 1), ParamOr(limitParam, defaultLimit);
    var skip := (page - 1) * limit;
    && skip >= 0
    && |data| == WindowLength(|sorted|, skip, Abs(limit))
    && forall k :: 0 <= k < |data| ==> skip + k < |sorted| && data[k] == sorted[skip + k]
  }

  /** The tail of every listing: sort the matches by `key`, then page them. */
  function SortedPage<T>(matches: seq<T>, key: T -> Key, total: nat, pageParam: Option<int>,
                         limitParam: Option<int>, defaultLimit: int): (r: Result<Page<T>>)
    requires defaultLimit > 0
    ensures r == Paginate(SortBy(matches, key), total, pageParam, limitParam, defaultLimit)
    ensures r.Err? <==> (ParamOr(pageParam, 1) - 1) * ParamOr(limitParam, defaultLimit) < 0
    ensures r.Err? ==> r.error == Internal(NegativeSkip)
    ensures r.Ok? ==>
      && r.value.total == total && r.value.currentPage == ParamOr(pageParam, 1)
      && r.value.totalPages == CeilDiv(total, ParamOr(limitParam, defaultLimit))
    ensures r.Ok? ==> IsWindowOf(r.value.data, SortBy(matches, key), pageParam, limitParam, defaultLimit)
    ensures r.Ok? ==> SortedBy(r.value.data, key)
    ensures r.Ok? ==> forall k :: 0 <= k < |r.value.data| ==> r.value.data[k] in matches
  {
    var sorted := SortBy(matches, key);
    var r := Paginate(sorted, total, pageParam, limitParam, defaultLimit);
    if r.Ok? then
      SortedWindow(matches, key, sorted, (ParamOr(pageParam, 1) - 1) * ParamOr(limitParam, defaultLimit),
                   r.value.data);
      r
    else r
  }

  /** A window of the sorted matches is sorted and holds only matches. */
  lemma SortedWindow<T>(matches: seq<T>, key: T -> Key, sorted: seq<T>, skip: int, data: seq<T>)
    requires sorted == SortBy(matches, key) && skip >= 0
    requires forall k :: 0 <= k < |data| ==> skip + k < |sorted| && data[k] == sorted[skip + k]
    ensures SortedBy(data, key)
    ensures forall k :: 0 <= k < |data| ==> data[k] in matches
  {
    forall k | 0 <= k < |data| ensures data[k] in matches {
      var x := data[k];
      assert x in sorted;
      assert x in multiset(sorted);
    }
    forall i, j | 0 <= i < j < |data| ensures KeyLe(key(data[i]), key(data[j])) {
      var a, b := data[i], data[j];
      assert skip + i < |sorted| && skip + j < |sorted|;
      assert KeyLe(key(sorted[skip + i]), key(sorted[skip + j]));
    }
  }

  /** Sorting what passes a condition holds exactly the elements that pass it,
      in key order. */
  lemma SortedMatches<T>(s: seq<T>, p: T -> bool, key: T -> Key)
    ensures forall x :: x in SortBy(Filter(s, p), key) <==> x in s && p(x)
    ensures SortedBy(SortBy(Filter(s, p), key), key)
  {
    var f := Filter(s, p);
    var r := SortBy(f, key);
    forall x ensures x in r <==> x in s && p(x) {
      if x in r {
        assert x in multiset(r);
        assert x in f;
        var k :| 0 <= k < |f| && f[k] == x;
      }
      if x in s && p(x) {
        var k :| 0 <= k < |s| && s[k] == x;
        assert x in f;
        assert x in multiset(f);
      }
    }
  }

  /** With a positive limit every one of the sorted matches is shown on exactly
      the page `i / limit + 1`, which lies within `1..ceil(|sorted| / limit)`,
      whatever `total` the handler reports. */
  lemma EveryMatchOnItsPage<T>(sorted: seq<T>, total: nat, defaultLimit: int, limit: int, i: nat)
    requires defaultLimit > 0 && limit > 0 && i < |sorted|
    ensures var p := i / limit + 1;
      && 1 <= p <= CeilDiv(|sorted|, limit)
      && var r := Paginate(sorted, total, Some(p), Some(limit), defaultLimit);
         r.Ok? && 0 <= i - (p - 1) * limit < |r.value.data|
         && r.value.data[i - (p - 1) * limit] == sorted[i]
  {
    var p := i / limit + 1;
    PageOfIndex(|sorted|, limit, i);
    var skip := (p - 1) * limit;
    assert skip == (i / limit) * limit;
    var r := Paginate(sorted, total, Some(p), Some(limit), defaultLimit);
    assert r.Ok?;
    assert i - skip < |r.value.data|;
  }

  /** Every match is shown on some page `p` within `1..ceil(|matches| / limit)`,
      whatever `total` the handler reports. */
  lemma SortedPageComplete<T>(matches: seq<T>, key: T -> Key, total: nat, defaultLimit: int,
                              limit: int, x: T) returns (p: int)
    requires defaultLimit > 0 && limit > 0 && x in matches
    ensures 1 <= p <= CeilDiv(|matches|, limit)
    ensures var r := SortedPage(matches, key, total, Some(p), Some(limit), defaultLimit);
      r.Ok? && x in r.value.data
  {
    var sorted := SortBy(matches, key);
    assert x in multiset(matches);
    var i := IndexOf(sorted, x);
    EveryMatchOnItsPage(sorted, total, defaultLimit, limit, i);
    p := i / limit + 1;
    var r := Paginate(sorted, total, Some(p), Some(limit), defaultLimit);
    assert r.value.data[i - (p - 1) * limit] == x;
  }

  /** The page arithmetic behind the previous lemma: the index lies in the window of
      its page, and that page is at most the page count. */
  lemma PageOfIndex(n: nat, limit: int, i: nat)
    requires limit > 0 && i < n
    ensures (i / limit) * limit <= i < (i / limit) * limit + limit
    ensures i / limit + 1 <= CeilDiv(n, limit)
  {
    var q, c := i / limit, CeilDiv(n, limit);
    assert i == q * limit + i % limit;
    assert q * limit <= i < c * limit;
    assert (c - q) * limit == c * limit - q * limit > 0;
  }

  /** The first `n` entries of a sorted sequence rank no lower than any entry left out. */
  lemma TakeIsTop<T>(s: seq<T>, key: T -> Key, n: nat, x: T)
    requires SortedBy(s, key) && n <= |s| && x in s && x !in s[..n]
    ensures forall k :: 0 <= k < n ==> KeyLe(key(s[k]), key(x))
  {
    var j := IndexOf(s, x);
    assert forall k :: 0 <= k < n ==> s[..n][k] == s[k];
  }

  /** `find(condition).sort(key).limit(limit)` for a positive limit: the first
      `limit` matches in key order. Those returned rank no lower than any match
      left out. */
  function Top<T>(s: seq<T>, p: T -> bool, key: T -> Key, limit: nat): (r: seq<T>)
    ensures |r| == if |Filter(s, p)| < limit then |Filter(s, p)| else limit
    ensures SortedBy(r, key)
    ensures forall k :: 0 <= k < |r| ==> r[k] in s && p(r[k])
    ensures forall k, x :: 0 <= k < |r| && x in s && p(x) && x !in r ==> KeyLe(key(r[k]), key(x))
  {
    var sorted := SortBy(Filter(s, p), key);
    var r := Window(sorted, 0, limit);
    TopFacts(s, p, key, sorted, r);
    r
  }

  lemma TopFacts<T>(s: seq<T>, p: T -> bool, key: T -> Key, sorted: seq<T>, r: seq<T>)
    requires sorted == SortBy(Filter(s, p), key)
    requires |r| <= |sorted| && r == sorted[..|r|]
    ensures forall k :: 0 <= k < |r| ==> r[k] in s && p(r[k])
    ensures forall k, x :: 0 <= k < |r| && x in s && p(x) && x !in r ==> KeyLe(key(r[k]), key(x))
  {
    forall k | 0 <= k < |r| ensures r[k] in s && p(r[k]) {
      assert r[k] == sorted[k];
      assert sorted[k] in multiset(Filter(s, p));
    }
    forall x | x in s && p(x) && x !in r ensures forall k :: 0 <= k < |r| ==> KeyLe(key(r[k]), key(x)) {
      assert x in Filter(s, p);
      assert x in multiset(sorted);
      TakeIsTop(sorted, key, |r|, x);
    }
  }

  // ---- aggregations over articles ----

  function CountCategory(s: seq<Article>, c: Category): (n: nat)
    ensures n <= |s|
  {
    if s == [] then 0 else (if s[0].category == c then 1 else 0) + CountCategory(s[1..], c)
  }

  function CountStatus(s: seq<Article>, st: Status): (n: nat)
    ensures n <= |s|
  {
    if s == [] then 0 else (if s[0].status == st then 1 else 0) + CountStatus(s[1..], st)
  }

  function CountFeatured(s: seq<Article>): (n: nat)
    ensures n <= |s|
  {
    if s == [] then 0 else (if s[0].isFeatured then 1 else 0) + CountFeatured(s[1..])
  }

  function SumViews(s: seq<Article>): int {
    if s == [] then 0 else s[0].views + SumViews(s[1..])
  }

  function SumLikes(s: seq<Article>): int {
    if s == [] then 0 else s[0].likesCount + SumLikes(s[1..])
  }

  /** Every article has exactly one of the three statuses. */
  lemma {:induction false} StatusCountsPartition(s: seq<Article>)
    ensures CountStatus(s, Draft) + CountStatus(s, Published) + CountStatus(s, Archived) == |s|
  {
    if s != [] {
      StatusCountsPartition(s[1..]);
    }
  }

  /** One output document of `$group: { _id: '$category', count: { $sum: 1 } }`. */
  datatype CategoryCount = CategoryCount(category: Category, count: nat)

  function ByCountDesc(g: CategoryCount): Key {
    Key(-(g.count as int), 0)
  }

  /** The categories of `cs` that occur in `s`, each with its number of articles. */
  function Groups(cs: seq<Category>, s: seq<Article>): (r: seq<CategoryCount>)
    ensures forall k :: 0 <= k < |r| ==>
      r[k].count == CountCategory(s, r[k].category) > 0 && r[k].category in cs
  {
    if cs == [] then []
    else
      var n := CountCategory(s, cs[0]);
      var rest := Groups(cs[1..], s);
      assert forall c :: c in cs[1..] ==> c in cs;
      if n > 0 then [CategoryCount(cs[0], n)] + rest else rest
  }

  /** Every category of `cs` that occurs in `s` has a group. */
  lemma {:induction false} GroupsCover(cs: seq<Category>, s: seq<Article>, c: Category)
    requires c in cs && CountCategory(s, c) > 0
    ensures c in GroupNames(Groups(cs, s))
  {
    var r := Groups(cs, s);
    if cs[0] == c {
      assert r[0].category == c;
      assert GroupNames(r)[0] == c;
    } else {
      assert c in cs[1..];
      GroupsCover(cs[1..], s, c);
      var rest := Groups(cs[1..], s);
      var k := IndexOf(GroupNames(rest), c);
      var d := |r| - |rest|;
      assert r[d + k] == rest[k];
      assert GroupNames(r)[d + k] == c;
    }
  }

  function GroupNames(gs: seq<CategoryCount>): (r: seq<Category>)
    ensures |r| == |gs| && forall k :: 0 <= k < |gs| ==> r[k] == gs[k].category
  {
    seq(|gs|, k requires 0 <= k < |gs| => gs[k].category)
  }

  function SumCounts(gs: seq<CategoryCount>): int {
    if gs == [] then 0 else gs[0].count + SumCounts(gs[1..])
  }

  /** The grouped counts of a collection, largest group first (`$sort: { count: -1 }`). */
  function CategoryCounts(s: seq<Article>): (r: seq<CategoryCount>)
    ensures SortedBy(r, ByCountDesc)
  {
    SortBy(Groups(AllCategories, s), ByCountDesc)
  }

  /** Each group carries its category's number of articles, which is positive,
      and the groups come largest first. */
  lemma CategoryCountsCounts(s: seq<Article>)
    ensures var r := CategoryCounts(s);
      && (forall k :: 0 <= k < |r| ==> r[k].count == CountCategory(s, r[k].category) > 0)
      && (forall i, j :: 0 <= i < j < |r| ==> r[i].count >= r[j].count)
  {
    var g := Groups(AllCategories, s);
    var r := CategoryCounts(s);
    forall k | 0 <= k < |r| ensures r[k].count == CountCategory(s, r[k].category) > 0 {
      assert r[k] in multiset(g);
    }
    assert forall i, j :: 0 <= i < j < |r| ==> KeyLe(ByCountDesc(r[i]), ByCountDesc(r[j]));
  }

  /** A category has a group exactly when some article belongs to it. */
  lemma CategoryCountsCover(s: seq<Article>)
    ensures forall c :: CountCategory(s, c) > 0 <==> c in GroupNames(CategoryCounts(s))
  {
    forall c ensures CountCategory(s, c) > 0 <==> c in GroupNames(CategoryCounts(s)) {
      CoverOne(s, c);
    }
  }

  lemma CoverOne(s: seq<Article>, c: Category)
    ensures CountCategory(s, c) > 0 <==> c in GroupNames(CategoryCounts(s))
  {
    AllCategoriesComplete();
    SortedGroupsCover(AllCategories, s, c);
  }

  lemma SortedGroupsCover(cs: seq<Category>, s: seq<Article>, c: Category)
    requires c in cs
    ensures CountCategory(s, c) > 0 <==> c in GroupNames(SortBy(Groups(cs, s), ByCountDesc))
  {
    var g := Groups(cs, s);
    var r := SortBy(g, ByCountDesc);
    if CountCategory(s, c) > 0 {
      GroupsCover(cs, s, c);
      var j := IndexOf(GroupNames(g), c);
      InMultiset(r, g, j);
      var k := IndexOf(r, g[j]);
      assert GroupNames(r)[k] == c;
    } else if c in GroupNames(r) {
      var k := IndexOf(GroupNames(r), c);
      InMultiset(g, r, k);
    }
  }

  lemma InMultiset<T>(r: seq<T>, g: seq<T>, j: nat)
    requires multiset(r) == multiset(g) && j < |g|
    ensures g[j] in r
  {
    assert g[j] in multiset(g);
  }

  /** No category is grouped twice. */
  lemma CategoryCountsNoDup(s: seq<Article>)
    ensures NoDup(GroupNames(CategoryCounts(s)))
  {
    var g := Groups(AllCategories, s);
    var r := CategoryCounts(s);
    AllCategoriesComplete();
    GroupsNoDup(AllCategories, s);
    CategoryCountsCounts(s);
    forall i, j | 0 <= i < j < |GroupNames(r)| ensures GroupNames(r)[i] != GroupNames(r)[j] {
      if r[i].category == r[j].category {
        assert r[i] == r[j];
        PermutationKeepsNoDup(g, r, i, j);
      }
    }
  }

  /** The group counts add up to the number of articles. */
  lemma CategoryCountsSum(s: seq<Article>)
    ensures SumCounts(CategoryCounts(s)) == |s|
  {
    SortKeepsSum(Groups(AllCategories, s));
    GroupsSum(AllCategories, s);
    SumOverAllCategories(s);
  }

  /** Two positions of a permutation of a duplicate-free sequence hold different values. */
  lemma PermutationKeepsNoDup<T>(a: seq<T>, b: seq<T>, i: nat, j: nat)
    requires NoDup(a) && multiset(a) == multiset(b) && i < j < |b|
    ensures b[i] != b[j]
  {
    if b[i] == b[j] {
      var x := b[i];
      assert b == b[..i] + [x] + b[i + 1..j] + [x] + b[j + 1..];
      assert multiset(b)[x] >= 2;
      NoDupOnce(a, x);
    }
  }

  lemma {:induction false} NoDupOnce<T>(a: seq<T>, x: T)
    requires NoDup(a)
    ensures multiset(a)[x] <= 1
  {
    if a != [] {
      assert a == [a[0]] + a[1..];
      assert NoDup(a[1..]) by {
        forall p, q | 0 <= p < q < |a[1..]| ensures a[1..][p] != a[1..][q] {
          assert a[1..][p] == a[p + 1] && a[1..][q] == a[q + 1];
        }
      }
      NoDupOnce(a[1..], x);
      if a[0] == x {
        assert x !in a[1..] by {
          forall p | 0 <= p < |a[1..]| ensures a[1..][p] != x {
            assert a[1..][p] == a[p + 1];
          }
        }
      }
    }
  }

  lemma {:induction false} GroupsNoDup(cs: seq<Category>, s: seq<Article>)
    requires NoDup(cs)
    ensures NoDup(Groups(cs, s))
  {
    if cs != [] {
      var rest := Groups(cs[1..], s);
      assert NoDup(cs[1..]) by {
        forall p, q | 0 <= p < q < |cs[1..]| ensures cs[1..][p] != cs[1..][q] {
          assert cs[1..][p] == cs[p + 1] && cs[1..][q] == cs[q + 1];
        }
      }
      GroupsNoDup(cs[1..], s);
      forall k | 0 <= k < |rest| ensures rest[k].category != cs[0] {
        var c := rest[k].category;
        assert c in cs[1..];
        var p :| 0 <= p < |cs[1..]| && cs[1..][p] == c;
        assert cs[p + 1] == c;
      }
    }
  }

  lemma {:induction false} InsertSum(x: CategoryCount, s: seq<CategoryCount>)
    requires SortedBy(s, ByCountDesc)
    ensures SumCounts(Insert(x, s, ByCountDesc)) == x.count + SumCounts(s)
  {
    if s != [] && !KeyLe(ByCountDesc(x), ByCountDesc(s[0])) {
      InsertSum(x, s[1..]);
    }
  }

  lemma {:induction false} SortKeepsSum(s: seq<CategoryCount>)
    ensures SumCounts(SortBy(s, ByCountDesc)) == SumCounts(s)
  {
    if s != [] {
      SortKeepsSum(s[1..]);
      InsertSum(s[0], SortBy(s[1..], ByCountDesc));
    }
  }

  function SumOver(cs: seq<Category>, s: seq<Article>): int {
    if cs == [] then 0 else CountCategory(s, cs[0]) + SumOver(cs[1..], s)
  }

  function Occurrences(cs: seq<Category>, c: Category): nat {
    if cs == [] then 0 else (if cs[0] == c then 1 else 0) + Occurrences(cs[1..], c)
  }

  lemma {:induction false} GroupsSum(cs: seq<Category>, s: seq<Article>)
    ensures SumCounts(Groups(cs, s)) == SumOver(cs, s)
  {
    if cs != [] {
      GroupsSum(cs[1..], s);
      var n := CountCategory(s, cs[0]);
      var head: seq<CategoryCount> := if n > 0 then [CategoryCount(cs[0], n)] else [];
      SumCountsConcat(head, Groups(cs[1..], s));
    }
  }

  lemma {:induction false} SumCountsConcat(a: seq<CategoryCount>, b: seq<CategoryCount>)
    ensures SumCounts(a + b) == SumCounts(a) + SumCounts(b)
  {
    if a == [] {
      assert a + b == b;
    } else {
      assert (a + b)[1..] == a[1..] + b;
      SumCountsConcat(a[1..], b);
    }
  }

  lemma {:induction false} SumOverCons(cs: seq<Category>, a: Article, s: seq<Article>)
    ensures SumOver(cs, [a] + s) == Occurrences(cs, a.category) + SumOver(cs, s)
  {
    if cs != [] {
      assert ([a] + s)[1..] == s;
      SumOverCons(cs[1..], a, s);
    }
  }

  lemma SumOverAllCategories(s: seq<Article>)
    ensures SumOver(AllCategories, s) == |s|
  {
    AllCategoriesComplete();
    SumOverComplete(AllCategories, s);
  }

  /** Summing the per-category counts over a duplicate-free list naming every
      category counts each article once. */
  lemma {:induction false} SumOverComplete(cs: seq<Category>, s: seq<Article>)
    requires NoDup(cs) && forall c :: c in cs
    ensures SumOver(cs, s) == |s|
    decreases |s|
  {
    if s == [] {
      SumOverEmpty(cs);
    } else {
      var a, t := s[0], s[1..];
      assert s == [a] + t;
      SumOverCons(cs, a, t);
      SumOverComplete(cs, t);
      OccursOnce(cs, a.category);
    }
  }

  lemma {:induction false} SumOverEmpty(cs: seq<Category>)
    ensures SumOver(cs, []) == 0
  {
    if cs != [] {
      SumOverEmpty(cs[1..]);
    }
  }

  lemma {:induction false} OccursOnce(cs: seq<Category>, c: Category)
    requires NoDup(cs) && c in cs
    ensures Occurrences(cs, c) == 1
  {
    if cs[0] == c {
      assert c !in cs[1..] by {
        forall p | 0 <= p < |cs[1..]| ensures cs[1..][p] != c {
          assert cs[1..][p] == cs[p + 1];
        }
      }
      OccursNot(cs[1..], c);
    } else {
      assert NoDup(cs[1..]) by {
        forall p, q | 0 <= p < q < |cs[1..]| ensures cs[1..][p] != cs[1..][q] {
          assert cs[1..][p] == cs[p + 1] && cs[1..][q] == cs[q + 1];
        }
      }
      OccursOnce(cs[1..], c);
    }
  }

  lemma {:induction false} OccursNot(cs: seq<Category>, c: Category)
    requires c !in cs
    ensures Occurrences(cs, c) == 0
  {
    if cs != [] {
      OccursNot(cs[1..], c);
    }
  }
}

/** The view logic of `app/views.py`: the keyword filter, the search page
    with its merge and sort, the rankings, the home panel, the name-ordered
    listings and the like toggle that the AJAX endpoints run. */
module Views {
  import opened Wrappers
  import opened Catalog
  import opened Ordering
  import opened Forms

  // ---------------------------------------------------------------------
  // The keyword filter

  /** SQLite's `LIKE` folds ASCII letters to one case and no other character. */
  function FoldChar(c: char): char {
    if 'A' <= c <= 'Z' then (c as int + 32) as char else c
  }

  function Fold(s: string): string {
    seq(|s|, i requires 0 <= i < |s| => FoldChar(s[i]))
  }

  /** `word` occurs in `text` starting at index `i`. */
  predicate OccursAt(text: string, word: string, i: nat) {
    i + |word| <= |text| && text[i..i + |word|] == word
  }

  predicate Contains(text: string, word: string) {
    exists i :: 0 <= i <= |text| - |word| && OccursAt(text, word, i)
  }

  /** `column.contains(keyword)`, that is `column LIKE '%keyword%'`. */
  predicate Like(text: string, keyword: string) {
    Contains(Fold(text), Fold(keyword))
  }

  /** `or_(X.name.contains(keyword), X.description.contains(keyword))`: a
      NULL description never matches. */
  predicate Matches(e: Entity, keyword: string) {
    Like(e.Name(), keyword) || (e.Description().Some? && Like(e.Description().value, keyword))
  }

  /** The elements of `s` that `keep` accepts, in the order of `s`. */
  function Select(s: seq<Entity>, keep: Entity -> bool): (r: seq<Entity>)
    ensures forall x :: x in r <==> x in s && keep(x)
    ensures forall x :: multiset(r)[x] == if keep(x) then multiset(s)[x] else 0
    ensures r == [] <==> forall i :: 0 <= i < |s| ==> !keep(s[i])
  {
    if s == [] then []
    else
      assert s == [s[0]] + s[1..];
      (if keep(s[0]) then [s[0]] else []) + Select(s[1..], keep)
  }

  /** `X.query.filter(...)` with the keyword filter, in row id order. */
  function Matching(items: seq<Entity>, keyword: string): seq<Entity> {
    Select(items, e => Matches(e, keyword))
  }

  /** Matching ignores ASCII case: "rice" finds "Fried Rice" and "RICE" but
      not "Wheat". */
  lemma RiceExample()
    ensures Like("Fried Rice", "rice") && Like("RICE", "rice") && !Like("Wheat", "rice")
  {
    assert Fold("rice") == "rice";
    assert Fold("Fried Rice") == "fried rice";
    assert OccursAt("fried rice", "rice", 6);
    assert Fold("RICE") == "rice";
    assert OccursAt("rice", "rice", 0);
    assert Fold("Wheat") == "wheat";
    WheatLacksRice();
  }

  lemma WheatLacksRice()
    ensures !Contains("wheat", "rice")
  {
    var w := "wheat";
    assert w[0..4][0] == 'w' && w[1..5][0] == 'h';
  }

  // ---------------------------------------------------------------------
  // Distinct sequences

  predicate Distinct(s: seq<Entity>) {
    forall i, j :: 0 <= i < j < |s| ==> s[i] != s[j]
  }

  /** A stored table has distinct rows, since their ids differ. */
  lemma StoredItemsDistinct(items: seq<Entity>, clock: nat)
    requires WellFormedItems(items, clock)
    ensures Distinct(items)
  {
    forall i, j | 0 <= i < j < |items| ensures items[i] != items[j] {
      assert items[i].Id() != items[j].Id();
    }
  }

  /** In a sequence without repetitions every element occurs once. */
  lemma {:induction false} DistinctCount(s: seq<Entity>, x: Entity)
    requires Distinct(s)
    ensures multiset(s)[x] == if x in s then 1 else 0
  {
    if s != [] {
      assert s == [s[0]] + s[1..];
      assert forall k :: 0 <= k < |s| - 1 ==> s[1..][k] == s[k + 1];
      DistinctCount(s[1..], x);
    }
  }

  /** An element that occurs at most once is not repeated later on. */
  lemma SingleOccurrence(s: seq<Entity>, i: nat, j: nat)
    requires i < j < |s| && multiset(s)[s[i]] <= 1
    ensures s[i] != s[j]
  {
    assert s == s[..j] + s[j..];
    assert s[..j][i] == s[i];
    assert s[j..][0] == s[j];
  }

  /** A sub-multiset of a sequence without repetitions, such as a
      permutation of it, has none either. */
  lemma SubMultisetDistinct(s: seq<Entity>, t: seq<Entity>)
    requires Distinct(s) && multiset(t) <= multiset(s)
    ensures Distinct(t)
  {
    forall i, j | 0 <= i < j < |t| ensures t[i] != t[j] {
      DistinctCount(s, t[i]);
      SingleOccurrence(t, i, j);
    }
  }

  // ---------------------------------------------------------------------
  // Search

  /** The rows of the searched tables: `all` reads crops, then meals. */
  function ScopeItems(crops: seq<Crop>, meals: seq<Meal>, scope: Scope): seq<Entity> {
    match scope
    case AllScope => CropItems(crops) + MealItems(meals)
    case CropsScope => CropItems(crops)
    case MealsScope => MealItems(meals)
  }

  /** The result list before sorting: for `all`, the matching crops
      followed by the matching meals (`list(crops) + list(meals)`). */
  function Unsorted(crops: seq<Crop>, meals: seq<Meal>, q: SearchQuery): seq<Entity> {
    match q.scope
    case AllScope => Matching(CropItems(crops), q.keyword) + Matching(MealItems(meals), q.keyword)
    case CropsScope => Matching(CropItems(crops), q.keyword)
    case MealsScope => Matching(MealItems(meals), q.keyword)
  }

  /** The results of a validated search: `results.sort(...)` for `all`, the
      query's `ORDER BY` for one table. Where `ORDER BY` leaves ties open,
      and for the two unordered queries of `all`, the model keeps row id
      order; `Search` fixes that order, and `SearchStable` is stated about
      it. */
  function SearchResults(crops: seq<Crop>, meals: seq<Meal>, likes: Likes, q: SearchQuery): seq<Entity> {
    SortBy(q.order, likes, Unsorted(crops, meals, q))
  }

  /** An entity is a result iff it is a row of a searched table and its name
      or description contains the keyword; the results are a permutation of
      the unsorted list. */
  lemma SearchFinds(crops: seq<Crop>, meals: seq<Meal>, likes: Likes, q: SearchQuery)
    ensures multiset(SearchResults(crops, meals, likes, q)) == multiset(Unsorted(crops, meals, q))
    ensures forall e :: e in SearchResults(crops, meals, likes, q) <==>
      e in ScopeItems(crops, meals, q.scope) && Matches(e, q.keyword)
  {
    var u := Unsorted(crops, meals, q);
    SortByPermutes(q.order, likes, u);
    UnsortedMembers(crops, meals, q);
    forall e ensures e in SearchResults(crops, meals, likes, q) <==> e in u {
      assert e in SearchResults(crops, meals, likes, q) <==> e in multiset(SearchResults(crops, meals, likes, q));
    }
  }

  /** The unsorted list holds exactly the matching rows of the searched tables. */
  lemma UnsortedMembers(crops: seq<Crop>, meals: seq<Meal>, q: SearchQuery)
    ensures forall e :: e in Unsorted(crops, meals, q) <==>
      e in ScopeItems(crops, meals, q.scope) && Matches(e, q.keyword)
  {
  }

  /** The results follow the chosen sort key: names ascending, hunger
      values (`hunger_points` of a crop, `hunger_restored` of a meal)
      descending, like counts descending. */
  lemma SearchOrdered(crops: seq<Crop>, meals: seq<Meal>, likes: Likes, q: SearchQuery)
    ensures Sorted(q.order, likes, SearchResults(crops, meals, likes, q))
    ensures forall i, j :: 0 <= i < j < |SearchResults(crops, meals, likes, q)| ==>
      var r := SearchResults(crops, meals, likes, q);
      && (q.order == ByName ==> r[i].Name() == r[j].Name() || LexLess(r[i].Name(), r[j].Name()))
      && (q.order == ByHunger ==> r[i].Hunger() >= r[j].Hunger())
      && (q.order == ByLikes ==> EntityLikes(likes, r[i]) >= EntityLikes(likes, r[j]))
  {
    var r := SearchResults(crops, meals, likes, q);
    SortBySorted(q.order, likes, Unsorted(crops, meals, q));
    forall i, j | 0 <= i < j < |r| ensures
      && (q.order == ByName ==> r[i].Name() == r[j].Name() || LexLess(r[i].Name(), r[j].Name()))
      && (q.order == ByHunger ==> r[i].Hunger() >= r[j].Hunger())
      && (q.order == ByLikes ==> EntityLikes(likes, r[i]) >= EntityLikes(likes, r[j]))
    {
      SortedMeaning(q.order, likes, r, i, j);
    }
  }

  /** `list.sort` is stable: in the `all` scope, the results that share a
      sort key appear in the order of the unsorted list. */
  lemma SearchStable(crops: seq<Crop>, meals: seq<Meal>, likes: Likes, q: SearchQuery, k: SortKey)
    requires q.scope == AllScope
    ensures Run(q.order, likes, SearchResults(crops, meals, likes, q), k) ==
            Run(q.order, likes, Matching(CropItems(crops), q.keyword) + Matching(MealItems(meals), q.keyword), k)
  {
    SortByStable(q.order, likes, Unsorted(crops, meals, q), k);
  }

  /** Over a well-formed store every matching row is listed exactly once,
      whatever its like count (the `likes` path joins with an outer join). */
  lemma SearchOnce(crops: seq<Crop>, meals: seq<Meal>, clock: nat, likes: Likes, q: SearchQuery)
    requires WellFormedItems(CropItems(crops), clock) && WellFormedItems(MealItems(meals), clock)
    ensures forall e :: multiset(SearchResults(crops, meals, likes, q))[e] == if e in ScopeItems(crops, meals, q.scope) && Matches(e, q.keyword) then 1 else 0
  {
    var items := ScopeItems(crops, meals, q.scope);
    StoredItemsDistinct(CropItems(crops), clock);
    StoredItemsDistinct(MealItems(meals), clock);
    assert Distinct(items) by {
      if q.scope == AllScope {
        var c := CropItems(crops);
        forall i, j | 0 <= i < j < |items| ensures items[i] != items[j] {
          if j < |c| {
            assert items[i] == c[i] && items[j] == c[j];
          } else if i >= |c| {
            assert items[i] == MealItems(meals)[i - |c|] && items[j] == MealItems(meals)[j - |c|];
          } else {
            assert items[i].CropItem? && items[j].MealItem?;
          }
        }
      }
    }
    SortByPermutes(q.order, likes, Unsorted(crops, meals, q));
    forall e ensures multiset(SearchResults(crops, meals, likes, q))[e] ==
      if e in items && Matches(e, q.keyword) then 1 else 0
    {
      DistinctCount(items, e);
      if q.scope == AllScope {
        var c, m := CropItems(crops), MealItems(meals);
        DistinctCount(c, e);
        DistinctCount(m, e);
        assert multiset(items) == multiset(c) + multiset(m);
        if e.CropItem? {
          assert e !in m;
        } else {
          assert e !in c;
        }
      }
    }
  }

  /** The `all` branch: concatenates the two matching lists into a Python
      list and sorts it in place. */
  method SortMerged(crops: seq<Entity>, meals: seq<Entity>, order: Order, likes: Likes)
    returns (results: seq<Entity>)
    ensures results == SortBy(order, likes, crops + meals)
  {
    var merged := crops + meals;
    var a := new Entity[|merged|](i requires 0 <= i < |merged| => merged[i]);
    assert a[..] == merged;
    SortInPlace(a, order, likes);
    results := a[..];
  }

  /** The search page: an unsubmitted or invalid form shows no results, a
      valid one shows the results of its query. */
  method Search(store: Store, submitted: bool, keyword: string, searchType: Option<string>, sortBy: Option<string>)
    returns (results: seq<Entity>)
    ensures !submitted || ValidateSearch(keyword, searchType, sortBy).None? ==> results == []
    ensures submitted && ValidateSearch(keyword, searchType, sortBy).Some? ==>
      results == SearchResults(store.crops, store.meals, store.LikeTables(), ValidateSearch(keyword, searchType, sortBy).value)
  {
    results := [];
    var form := ValidateSearch(keyword, searchType, sortBy);
    if submitted && form.Some? {
      var q := form.value;
      if q.scope == AllScope {
        results := SortMerged(Matching(CropItems(store.crops), q.keyword), Matching(MealItems(store.meals), q.keyword),
                              q.order, store.LikeTables());
      } else {
        results := SearchResults(store.crops, store.meals, store.LikeTables(), q);
      }
    }
  }

  // ---------------------------------------------------------------------
  // Rankings and the home panel

  /** A row of an aggregate query: the entity and its like count. */
  datatype Ranked = Ranked(item: Entity, likes: nat)

  function Min(a: nat, b: nat): nat {
    if a < b then a else b
  }

  /** The entities of an aggregate result, in order. */
  function Listed(r: seq<Ranked>): seq<Entity> {
    seq(|r|, i requires 0 <= i < |r| => r[i].item)
  }

  /** Each entity with `func.count(User.id)`, its like count. */
  function WithCounts(s: seq<Entity>, likes: Likes): seq<Ranked> {
    seq(|s|, i requires 0 <= i < |s| => Ranked(s[i], EntityLikes(likes, s[i])))
  }

  /** `... .group_by(X.id).order_by(func.count(User.id).desc()).limit(limit)`. */
  function TopByLikes(items: seq<Entity>, likes: Likes, limit: nat): seq<Ranked> {
    var s := SortBy(ByLikes, likes, items);
    WithCounts(s[..Min(limit, |s|)], likes)
  }

  /** An element of `s` that is not among its first `n` lies beyond them. */
  lemma PastPrefix(s: seq<Entity>, n: nat, e: Entity) returns (k: nat)
    requires n <= |s| && e in s && e !in s[..n]
    ensures n <= k < |s| && s[k] == e
  {
    assert s == s[..n] + s[n..];
    assert e in s[n..];
    var j :| 0 <= j < |s| - n && s[n..][j] == e;
    k := n + j;
  }

  /** The first `n` entries of a sorted list: drawn from the input, and no
      entity left out sorts before one that was kept. */
  lemma SortedPrefix(order: Order, likes: Likes, items: seq<Entity>, n: nat)
    requires n <= |items|
    ensures |SortBy(order, likes, items)| == |items|
    ensures n == |items| ==> SortBy(order, likes, items)[..n] == SortBy(order, likes, items)
    ensures multiset(SortBy(order, likes, items)[..n]) <= multiset(items)
    ensures forall e, i :: e in items && e !in SortBy(order, likes, items)[..n] && 0 <= i < n ==>
      !Precedes(order, likes, e, SortBy(order, likes, items)[i])
  {
    var s := SortBy(order, likes, items);
    SortByPermutes(order, likes, items);
    SortBySorted(order, likes, items);
    assert |s| == |items| by {
      assert |multiset(s)| == |multiset(items)|;
    }
    assert multiset(s) == multiset(s[..n]) + multiset(s[n..]) by {
      assert s == s[..n] + s[n..];
    }
    forall e, i | e in items && e !in s[..n] && 0 <= i < n ensures !Precedes(order, likes, e, s[i]) {
      assert e in multiset(s);
      var k := PastPrefix(s, n, e);
      assert !Precedes(order, likes, s[k], s[i]);
    }
  }

  /** An aggregate ranking lists `min(limit, |items|)` entries taken from
      `items`, each with its real like count and none more often than it
      occurs in `items`, counts non-increasing, no entity left out has more
      likes than one listed, and when everything fits, everything (including
      entities without likes) is listed. */
  lemma TopByLikesMeaning(items: seq<Entity>, likes: Likes, limit: nat)
    ensures |TopByLikes(items, likes, limit)| == Min(limit, |items|)
    ensures forall i :: 0 <= i < |TopByLikes(items, likes, limit)| ==>
      var r := TopByLikes(items, likes, limit);
      r[i].item in items && r[i].likes == EntityLikes(likes, r[i].item)
    ensures forall i, j :: 0 <= i < j < |TopByLikes(items, likes, limit)| ==>
      TopByLikes(items, likes, limit)[i].likes >= TopByLikes(items, likes, limit)[j].likes
    ensures forall e, i ::
      (e in items && e !in Listed(TopByLikes(items, likes, limit)) && 0 <= i < |TopByLikes(items, likes, limit)|) ==>
      EntityLikes(likes, e) <= TopByLikes(items, likes, limit)[i].likes
    ensures multiset(Listed(TopByLikes(items, likes, limit))) <= multiset(items)
    ensures |items| <= limit ==> multiset(Listed(TopByLikes(items, likes, limit))) == multiset(items)
  {
    var s := SortBy(ByLikes, likes, items);
    var n := Min(limit, |items|);
    SortedPrefix(ByLikes, likes, items, n);
    SortByPermutes(ByLikes, likes, items);
    SortBySorted(ByLikes, likes, items);
    var r := TopByLikes(items, likes, limit);
    assert Listed(r) == s[..n];
    forall i | 0 <= i < |r| ensures r[i].item in items {
      assert r[i].item in multiset(s[..n]);
    }
    forall i, j | 0 <= i < j < |r| ensures r[i].likes >= r[j].likes {
      SortedMeaning(ByLikes, likes, s, i, j);
    }
  }

  /** The rankings page: the ten most liked crops and the ten most liked meals. */
  datatype RankingsPage = RankingsPage(crops: seq<Ranked>, meals: seq<Ranked>)

  function Rankings(crops: seq<Crop>, meals: seq<Meal>, likes: Likes): RankingsPage {
    RankingsPage(TopByLikes(CropItems(crops), likes, 10), TopByLikes(MealItems(meals), likes, 10))
  }

  /** Each rankings list is the ranking of its own table with the limit
      ten: `min(10, rows)` entries taken from the table, each with its real
      count and none more often than it occurs there, counts non-increasing,
      no row left out has more likes than one listed, and a table of at most
      ten rows is listed in full. */
  lemma RankingsMeaning(crops: seq<Crop>, meals: seq<Meal>, likes: Likes)
    ensures |Rankings(crops, meals, likes).crops| == Min(10, |crops|)
    ensures |Rankings(crops, meals, likes).meals| == Min(10, |meals|)
    ensures forall i :: 0 <= i < |Rankings(crops, meals, likes).crops| ==>
      var r := Rankings(crops, meals, likes).crops;
      r[i].item in CropItems(crops) && r[i].likes == EntityLikes(likes, r[i].item)
    ensures forall i :: 0 <= i < |Rankings(crops, meals, likes).meals| ==>
      var r := Rankings(crops, meals, likes).meals;
      r[i].item in MealItems(meals) && r[i].likes == EntityLikes(likes, r[i].item)
    ensures forall i, j :: 0 <= i < j < |Rankings(crops, meals, likes).crops| ==>
      Rankings(crops, meals, likes).crops[i].likes >= Rankings(crops, meals, likes).crops[j].likes
    ensures forall i, j :: 0 <= i < j < |Rankings(crops, meals, likes).meals| ==>
      Rankings(crops, meals, likes).meals[i].likes >= Rankings(crops, meals, likes).meals[j].likes
    ensures forall e, i ::
      (e in CropItems(crops) && e !in Listed(Rankings(crops, meals, likes).crops) && 0 <= i < |Rankings(crops, meals, likes).crops|) ==>
      EntityLikes(likes, e) <= Rankings(crops, meals, likes).crops[i].likes
    ensures forall e, i ::
      (e in MealItems(meals) && e !in Listed(Rankings(crops, meals, likes).meals) && 0 <= i < |Rankings(crops, meals, likes).meals|) ==>
      EntityLikes(likes, e) <= Rankings(crops, meals, likes).meals[i].likes
    ensures multiset(Listed(Rankings(crops, meals, likes).crops)) <= multiset(CropItems(crops))
    ensures multiset(Listed(Rankings(crops, meals, likes).meals)) <= multiset(MealItems(meals))
    ensures |crops| <= 10 ==> multiset(Listed(Rankings(crops, meals, likes).crops)) == multiset(CropItems(crops))
    ensures |meals| <= 10 ==> multiset(Listed(Rankings(crops, meals, likes).meals)) == multiset(MealItems(meals))
  {
    TopByLikesMeaning(CropItems(crops), likes, 10);
    TopByLikesMeaning(MealItems(meals), likes, 10);
  }

  /** Over stored tables no row appears twice in a rankings list. */
  lemma RankingsDistinct(crops: seq<Crop>, meals: seq<Meal>, likes: Likes, clock: nat)
    requires WellFormedItems(CropItems(crops), clock) && WellFormedItems(MealItems(meals), clock)
    ensures Distinct(Listed(Rankings(crops, meals, likes).crops))
    ensures Distinct(Listed(Rankings(crops, meals, likes).meals))
  {
    RankingsMeaning(crops, meals, likes);
    StoredItemsDistinct(CropItems(crops), clock);
    StoredItemsDistinct(MealItems(meals), clock);
    SubMultisetDistinct(CropItems(crops), Listed(Rankings(crops, meals, likes).crops));
    SubMultisetDistinct(MealItems(meals), Listed(Rankings(crops, meals, likes).meals));
  }

  /** Each entity with the count 0, as the fallback of the home panel pairs them. */
  function WithZero(s: seq<Entity>): seq<Ranked> {
    seq(|s|, i requires 0 <= i < |s| => Ranked(s[i], 0))
  }

  /** `Meal.query.order_by(Meal.created_at.desc()).limit(n)`, each meal
      paired with the count 0. */
  function Newest(items: seq<Entity>, likes: Likes, n: nat): seq<Ranked> {
    var s := SortBy(ByNewest, likes, items);
    WithZero(s[..Min(n, |s|)])
  }

  /** The newest-first list has `min(n, |items|)` entries taken from
      `items`, none more often than it occurs there, creation numbers
      non-increasing, and no entity left out is newer than one listed. */
  lemma NewestMeaning(items: seq<Entity>, likes: Likes, n: nat)
    ensures |Newest(items, likes, n)| == Min(n, |items|)
    ensures forall i :: 0 <= i < |Newest(items, likes, n)| ==>
      Newest(items, likes, n)[i].item in items && Newest(items, likes, n)[i].likes == 0
    ensures forall i, j :: 0 <= i < j < |Newest(items, likes, n)| ==>
      Newest(items, likes, n)[i].item.Created() >= Newest(items, likes, n)[j].item.Created()
    ensures forall e, i ::
      (e in items && e !in Listed(Newest(items, likes, n)) && 0 <= i < |Newest(items, likes, n)|) ==>
      e.Created() <= Newest(items, likes, n)[i].item.Created()
    ensures multiset(Listed(Newest(items, likes, n))) <= multiset(items)
  {
    var s := SortBy(ByNewest, likes, items);
    var m := Min(n, |items|);
    SortedPrefix(ByNewest, likes, items, m);
    SortBySorted(ByNewest, likes, items);
    var r := WithZero(s[..m]);
    assert Listed(r) == s[..m];
    forall i | 0 <= i < |r| ensures r[i].item in items {
      assert r[i].item in multiset(s[..m]);
    }
    forall i, j | 0 <= i < j < |r| ensures r[i].item.Created() >= r[j].item.Created() {
      SortedMeaning(ByNewest, likes, s, i, j);
    }
  }

  /** The home panel: the three most liked meals of an inner join, which
      only sees meals with at least one like; when there are none, the three
      newest meals with the count 0. */
  function HomePanel(meals: seq<Meal>, likes: Likes): seq<Ranked> {
    var liked := LikedMeals(meals, likes);
    if liked != [] then TopByLikes(liked, likes, 3) else Newest(MealItems(meals), likes, 3)
  }

  /** Some meal has a like. */
  predicate AnyLiked(meals: seq<Meal>, likes: Likes) {
    exists e :: e in MealItems(meals) && EntityLikes(likes, e) > 0
  }

  /** The meals the inner join of the home panel sees, in row id order:
      exactly the meals with a like, each as often as in the table, and
      none at all iff no meal has a like. */
  function LikedMeals(meals: seq<Meal>, likes: Likes): (r: seq<Entity>)
    ensures forall e :: e in r <==> e in MealItems(meals) && EntityLikes(likes, e) > 0
    ensures multiset(r) <= multiset(MealItems(meals))
    ensures r == [] <==> !AnyLiked(meals, likes)
  {
    var r := Select(MealItems(meals), e => EntityLikes(likes, e) > 0);
    assert multiset(r) <= multiset(MealItems(meals)) by {
      forall x ensures multiset(r)[x] <= multiset(MealItems(meals))[x] {
      }
    }
    assert r != [] ==> AnyLiked(meals, likes) by {
      if r != [] {
        assert r[0] in r;
      }
    }
    r
  }

  /** Ranking the entries of `items` that have a like: every listed entry
      is an entry of `items` with at least one like, and no entry of
      `items` left out has more likes than one listed. */
  lemma RankLiked(items: seq<Entity>, liked: seq<Entity>, likes: Likes, limit: nat)
    requires forall e :: e in liked <==> e in items && EntityLikes(likes, e) > 0
    ensures forall i :: 0 <= i < |TopByLikes(liked, likes, limit)| ==>
      var r := TopByLikes(liked, likes, limit);
      r[i].item in items && r[i].likes == EntityLikes(likes, r[i].item) && r[i].likes >= 1
    ensures forall e, i ::
      (e in items && e !in Listed(TopByLikes(liked, likes, limit)) && 0 <= i < |TopByLikes(liked, likes, limit)|) ==>
      EntityLikes(likes, e) <= TopByLikes(liked, likes, limit)[i].likes
  {
    var r := TopByLikes(liked, likes, limit);
    TopByLikesMeaning(liked, likes, limit);
    forall i | 0 <= i < |r| ensures r[i].item in items && r[i].likes >= 1 {
      assert r[i].item in liked;
    }
    forall e, i | e in items && e !in Listed(r) && 0 <= i < |r| ensures EntityLikes(likes, e) <= r[i].likes {
      if EntityLikes(likes, e) > 0 {
        assert e in liked;
      }
    }
  }

  /** The home panel when some meal has a like: `min(3, liked meals)`
      liked meals, each with its real count and none shown more often than
      it occurs in the meal table, counts non-increasing, and no meal left
      out has more likes than one shown. */
  lemma HomePanelLiked(meals: seq<Meal>, likes: Likes)
    requires AnyLiked(meals, likes)
    ensures |HomePanel(meals, likes)| == Min(3, |LikedMeals(meals, likes)|)
    ensures 1 <= |HomePanel(meals, likes)| <= 3
    ensures forall i :: 0 <= i < |HomePanel(meals, likes)| ==>
      var r := HomePanel(meals, likes);
      r[i].item in MealItems(meals) && r[i].likes == EntityLikes(likes, r[i].item) && r[i].likes >= 1
    ensures forall i, j :: 0 <= i < j < |HomePanel(meals, likes)| ==>
      HomePanel(meals, likes)[i].likes >= HomePanel(meals, likes)[j].likes
    ensures forall e, i ::
      (e in MealItems(meals) && e !in Listed(HomePanel(meals, likes)) && 0 <= i < |HomePanel(meals, likes)|) ==>
      EntityLikes(likes, e) <= HomePanel(meals, likes)[i].likes
    ensures multiset(Listed(HomePanel(meals, likes))) <= multiset(MealItems(meals))
  {
    var liked := LikedMeals(meals, likes);
    assert HomePanel(meals, likes) == TopByLikes(liked, likes, 3);
    TopByLikesMeaning(liked, likes, 3);
    RankLiked(MealItems(meals), liked, likes, 3);
  }

  /** The home panel when no meal has a like: the `min(3, |meals|)` newest
      meals, newest first, none shown more often than it occurs in the meal
      table, each with the count 0, which is its real count; no meal left
      out is newer than one shown. */
  lemma HomePanelNewest(meals: seq<Meal>, likes: Likes)
    requires !AnyLiked(meals, likes)
    ensures |HomePanel(meals, likes)| == Min(3, |meals|)
    ensures forall i :: 0 <= i < |HomePanel(meals, likes)| ==>
      var r := HomePanel(meals, likes);
      r[i].item in MealItems(meals) && r[i].likes == 0 && EntityLikes(likes, r[i].item) == 0
    ensures forall i, j :: 0 <= i < j < |HomePanel(meals, likes)| ==>
      HomePanel(meals, likes)[i].item.Created() >= HomePanel(meals, likes)[j].item.Created()
    ensures forall e, i ::
      (e in MealItems(meals) && e !in Listed(HomePanel(meals, likes)) && 0 <= i < |HomePanel(meals, likes)|) ==>
      e.Created() <= HomePanel(meals, likes)[i].item.Created()
    ensures multiset(Listed(HomePanel(meals, likes))) <= multiset(MealItems(meals))
  {
    var items := MealItems(meals);
    assert HomePanel(meals, likes) == Newest(items, likes, 3);
    NewestMeaning(items, likes, 3);
  }

  /** Over a stored meal table no meal appears twice on the home panel. */
  lemma HomePanelDistinct(meals: seq<Meal>, likes: Likes, clock: nat)
    requires WellFormedItems(MealItems(meals), clock)
    ensures Distinct(Listed(HomePanel(meals, likes)))
  {
    if AnyLiked(meals, likes) {
      HomePanelLiked(meals, likes);
    } else {
      HomePanelNewest(meals, likes);
    }
    StoredItemsDistinct(MealItems(meals), clock);
    SubMultisetDistinct(MealItems(meals), Listed(HomePanel(meals, likes)));
  }

  // ---------------------------------------------------------------------
  // The crops and meals pages

  /** No like table: the name order does not read one. */
  const NoLikes := Likes({}, {})

  /** `X.query.order_by(X.name.asc())`, before pagination. */
  function NameListing(items: seq<Entity>): seq<Entity> {
    SortBy(ByName, NoLikes, items)
  }

  /** The crops (or meals) page lists every stored row once, with names in
      strictly ascending order, since names are unique within a table. */
  lemma NameListingOrdered(items: seq<Entity>, clock: nat)
    requires WellFormedItems(items, clock)
    ensures multiset(NameListing(items)) == multiset(items)
    ensures forall i, j :: 0 <= i < j < |NameListing(items)| ==>
      LexLess(NameListing(items)[i].Name(), NameListing(items)[j].Name())
  {
    var r := NameListing(items);
    SortByPermutes(ByName, NoLikes, items);
    SortBySorted(ByName, NoLikes, items);
    StoredItemsDistinct(items, clock);
    SubMultisetDistinct(items, r);
    forall i, j | 0 <= i < j < |r| ensures LexLess(r[i].Name(), r[j].Name()) {
      SortedMeaning(ByName, NoLikes, r, i, j);
      assert r[i] in multiset(items) && r[j] in multiset(items);
      var a :| 0 <= a < |items| && items[a] == r[i];
      var b :| 0 <= b < |items| && items[b] == r[j];
      assert a != b;
      assert items[a].Name() != items[b].Name() by {
        if a < b { } else { }
      }
    }
  }

  // ---------------------------------------------------------------------
  // The like endpoints

  /** The JSON reply of `like_crop` / `like_meal`. */
  datatype LikeReply = LikeReply(success: bool, likesCount: nat, isLiked: bool)

  /** `get_or_404` found no row. */
  datatype ViewError = NotFound

  /** `like_crop` (kind `CropKind`) and `like_meal` (kind `MealKind`) for the
      logged-in user: removes the like if the user has it and adds it
      otherwise, then reports the new count and whether the user now likes
      the entity. */
  method ToggleLike(store: Store, kind: Kind, userId: Id, id: Id) returns (r: Result<LikeReply, ViewError>)
    requires store.Valid() && store.HasUser(userId)
    modifies store
    ensures store.Valid()
    ensures !old(store.Has(kind, id)) ==> r == Failure(NotFound) && store.LikeTables() == old(store.LikeTables())
    ensures old(store.Has(kind, id)) ==>
      && store.LikeTable(kind) == Toggled(old(store.LikeTable(kind)), userId, id)
      && r.Success? && r.value.success
      && (r.value.isLiked <==> (userId, id) !in old(store.LikeTable(kind)))
      && r.value.likesCount == LikesCount(store.LikeTable(kind), id)
      && r.value.likesCount == if r.value.isLiked then old(LikesCount(store.LikeTable(kind), id)) + 1
                                else old(LikesCount(store.LikeTable(kind), id)) - 1
    ensures kind == CropKind ==> store.mealLikes == old(store.mealLikes)
    ensures kind == MealKind ==> store.cropLikes == old(store.cropLikes)
    ensures store.users == old(store.users) && store.crops == old(store.crops) && store.meals == old(store.meals)
    ensures store.ingredients == old(store.ingredients) && store.clock == old(store.clock)
  {
    if !store.Has(kind, id) {
      return Failure(NotFound);
    }
    ghost var before := store.LikeTable(kind);
    ToggleCount(before, userId, id);
    var isLiked: bool;
    if (userId, id) in store.LikeTable(kind) {
      var removed := store.RemoveLike(kind, userId, id);
      isLiked := false;
    } else {
      var added := store.AppendLike(kind, userId, id);
      isLiked := true;
    }
    r := Success(LikeReply(true, LikesCount(store.LikeTable(kind), id), isLiked));
  }
}

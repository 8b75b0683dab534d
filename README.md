# Farmer's Delight catalog: a verified model

This project is a Dafny model of the core of a small Flask web catalog. The catalog holds crops and meals from the Farmer's Delight game mod. Users register, like crops and meals, search the catalog and look at popularity rankings.

The model covers:

- **The store** (`Catalog`). It holds users, crops and meals.
  - Each of the three association tables is a set of id pairs: crop likes, meal likes and meal ingredients.
  - The like count of an entity is the number of rows that name it.
  - `Store` is a class whose methods insert rows and add or remove pairs. Each keeps the store's invariants: ids are 1, 2, 3…, names are unique within a table, usernames and emails are unique, and every pair names existing rows.
- **The sort policies** (`Ordering`):
  - name ascending, in code-point order;
  - hunger descending, where a crop's key is `hunger_points` and a meal's is `hunger_restored`;
  - likes descending;
  - creation descending.

  Python's stable `list.sort` is modelled as an insertion sort in place on an array (`SortInPlace`). It is proved equal to a functional stable sort (`SortBy`). `SortBy` is proved to return a permutation, to return it in order, and to keep elements with equal keys in their original order.
- **The views** (`Views`):
  - the keyword filter, which is SQLite's `LIKE '%keyword%'`, case-insensitive on ASCII letters, over the name or the description;
  - the search page, with its three scopes and three sort keys;
  - the rankings page, the ten most liked crops and the ten most liked meals;
  - the home panel, the three most liked meals, or the three newest meals when no meal has a like;
  - the name-ordered crops and meals listings;
  - the like toggle behind the AJAX endpoints.
- **The forms** (`Forms`). These are the registration, profile-edit, search, crop and meal validators. Each field runs its chain the way WTForms does:
  - `DataRequired` on a blank value stops the field's chain;
  - every other failing validator adds one error and the chain goes on;
  - inline `validate_<field>` methods run after the field's own validators.

Modelling choices:

- Creation timestamps are a creation counter, `clock`, shared by all tables.
- Ids are SQLite row ids, and the model never deletes a row.
- An `ORDER BY` leaves the order of ties open. The model fills that gap with row-id order, so the functions are deterministic. Only `Search`'s ensures carries that tie order, through `SearchResults`; no lemma depends on it.
- The aggregate queries order by the count alone, and the home panel's inner join lists only liked meals. The model does the same.
- Email syntax is decided by an external library, so the library's verdict is a parameter. The same goes for the password hash.

## Model

| member | source | states |
|---|---|---|
| Catalog.TwoSided | app/models.py:45-56 | A user is among an entity's `liked_by_users` iff the entity is among the user's liked entities iff the pair is a row; the same holds for `meal.ingredients` and `crop.meals` |
| Catalog.LikesCountIsLikers | app/models.py:88-90 | `get_likes_count` (rows naming the entity) equals the number of distinct users in `liked_by_users` |
| Catalog.ToggleOnlyThePair | app/views.py:261-268 | A toggle flips the presence of the user's own pair and leaves every other pair as it was |
| Catalog.ToggleTwice | app/views.py:261-268 | Toggling the same pair twice restores the like table |
| Catalog.ToggleCount | app/views.py:270-282 | An unlike takes one from the entity's count (the count was at least 1); a like adds one |
| Catalog.ToggleOtherCount | app/views.py:291-298 | A toggle leaves the like count of every other entity unchanged |
| Catalog.UnnamedEntityHasNoLikes | tests/test_models.py:37-56 | An entity whose id no row names, such as a new crop or meal, has like count 0 |
| Catalog.FirstLike | tests/test_models.py:58-73 | After the first like of a user for an entity, both sides of the relation have one member and the count is 1 |
| Catalog.TwoIngredients | tests/test_models.py:92-109 | Appending two distinct crops to a meal without ingredients gives exactly those two ingredients |
| Catalog.Store.constructor | app/models.py:10-31 | An empty store satisfies the invariants, and its association tables are empty |
| Catalog.Store.AddUser | app/models.py:38-41 | The insert succeeds iff neither the username nor the email is taken; on success the store gains exactly one user with the next id; nothing else changes |
| Catalog.Store.SetPassword | app/models.py:58-60 | Only the user's stored hash changes, to the given hash |
| Catalog.Store.AddCrop | app/models.py:74-79 | The insert succeeds iff the name is new; the crop gets the next id, the current creation number and `hunger_points` defaulting to 0; its like count is 0; invariants kept |
| Catalog.Store.AddMeal | app/models.py:100-106 | The same for meals, with `hunger_restored` defaulting to 0 |
| Catalog.Store.AddIngredient | app/models.py:10-15 | The ingredient table becomes the old one plus the pair; the result says whether the pair was new; nothing else changes |
| Catalog.Store.AppendLike | app/models.py:18-31 | The like table of that kind gains the pair; the other table and all records are unchanged |
| Catalog.Store.RemoveLike | app/models.py:45-56 | The like table of that kind loses the pair; the result says whether it was present; nothing else changes |
| Ordering.LexIrreflexive | app/views.py:140 | No name sorts before itself |
| Ordering.LexTransitive | app/views.py:140 | Name order is transitive |
| Ordering.LexTotal | app/views.py:140 | Of two different names, one sorts before the other |
| Ordering.PrecedesKeysDiffer | app/views.py:139-152 | Entities that sort strictly apart have different sort keys, and strict precedence is asymmetric |
| Ordering.NotPrecedesTransitive | app/views.py:139-152 | "Not sorted before" is transitive for every policy (each is a strict weak order) |
| Ordering.InsertPermutes | app/views.py:139-152 | One insertion step keeps the multiset of elements |
| Ordering.InsertSorted | app/views.py:139-152 | Inserting into a sorted list gives a sorted list |
| Ordering.InsertRuns | app/views.py:139-152 | Insertion appends the new element to the end of its key's run and leaves other runs unchanged |
| Ordering.SortByPermutes | app/views.py:139-152 | The sort returns a permutation of its input |
| Ordering.SortBySorted | app/views.py:139-152 | The sort returns its input in order |
| Ordering.SortByStable | app/views.py:139-152 | For every key, the elements with that key keep their input order (`list.sort` is stable) |
| Ordering.SortedMeaning | app/views.py:139-152 | In a sorted list, names are non-decreasing for `name`, and hunger values, like counts and creation numbers are non-increasing for `hunger`, `likes` and newest |
| Ordering.InsertInPlace | app/views.py:139-152 | One in-place pass turns the array into the insertion of `a[i]` into `a[..i]`, followed by the untouched rest |
| Ordering.SortInPlace | app/views.py:136-152 | `results.sort(key=...)` in place: the array ends up as the stable sort of its old contents |
| Forms.HasLetter | app/forms.py:68 | `any(c.isalpha() for c in pwd)` holds iff some position holds a letter |
| Forms.HasDigit | app/forms.py:70 | `any(c.isdigit() for c in pwd)` holds iff some position holds a digit |
| Forms.LengthErrors | app/forms.py:18-21 | `Length(min, max)` reports nothing iff min ≤ length ≤ max, and otherwise exactly one error |
| Forms.PasswordStrength | app/forms.py:63-71 | A password passes iff it has at least 8 characters, a letter and a digit; the error is TooShort iff it is short, NoLetter iff it is long enough without a letter, NoDigit iff it is long enough with a letter but no digit |
| Forms.RegistrationAccepted | app/forms.py:15-71 | A registration is accepted iff the username is non-blank, 3–20 characters long and free, the email is non-blank, well formed and free, the password is strong, the confirmation equals it and the terms are accepted |
| Forms.RegistrationRejectsTaken | app/forms.py:49-61 | A non-blank username or email that a stored user holds is reported as taken |
| Forms.DigitsOnlyPassword | tests/test_forms.py:35-46 | "12345678" fails with the no-letter error alone |
| Forms.ShortPassword | tests/test_forms.py:48-58 | "short" fails both the length validator and the strength check |
| Forms.ExampleRegistration | tests/test_forms.py:23-33 | The test's registration (password "password123" twice, fresh username and email) is accepted |
| Forms.MismatchedConfirmation | tests/test_forms.py:60-71 | "password456" fails `EqualTo` against "password123" |
| Forms.ProfileUsernameRule | app/forms.py:134-138 | With unique usernames, editing user `me`: keeping one's own username is never "taken", and a username is reported taken iff another user holds it |
| Forms.ProfileEmailRule | app/forms.py:140-144 | The same rule for the email |
| Forms.SearchFormRule | app/forms.py:86-111 | A search validates iff the keyword is non-blank, the scope (default `all`) is one of all/crops/meals and the sort key (default `name`) is one of name/hunger/likes; missing fields give scope all, order by name |
| Forms.ExampleSearch | tests/test_forms.py:73-81 | The test's search (a CJK keyword, `all`, `name`) validates to that query |
| Forms.ItemAccepted | app/forms.py:147-153 | A crop form, and the name and hunger rules of a meal form, are accepted iff the name is non-blank and at most 100 characters and the hunger value is an integer ≥ 0 |
| Forms.MealAccepted | app/forms.py:156-162 | A meal form is accepted iff the name is non-blank and at most 100 characters, the hunger value is an integer ≥ 0 and the saturation value is present and ≥ 0 |
| Views.Select | app/views.py:108-135 | The filtered list holds exactly the accepted elements, each as often as in the input, and is empty iff no element is accepted |
| Views.RiceExample | app/views.py:111-112 | `contains` ignores ASCII case: "rice" is found in "Fried Rice" and "RICE" and not in "Wheat" |
| Views.StoredItemsDistinct | app/models.py:74 | The rows of a stored table are pairwise distinct, since their ids differ |
| Views.SearchFinds | app/views.py:108-135 | An entity is a search result iff it is a row of a searched table and its name, or its description when it has one, contains the keyword; the results are a permutation of the unsorted list (for `all`, matching crops followed by matching meals) |
| Views.SearchOrdered | app/views.py:139-206 | Results are in order: names non-decreasing, hunger values non-increasing, like counts non-increasing |
| Views.SearchStable | app/views.py:136-152 | In the `all` scope, results with equal sort keys appear in the order of the concatenated list |
| Views.SearchOnce | app/views.py:171-206 | Over a well-formed store every matching row appears exactly once, including rows without likes, and nothing else appears |
| Views.SortMerged | app/views.py:136-152 | Concatenating the two lists and sorting in place yields the stable sort of the concatenation |
| Views.Search | app/views.py:96-216 | An unsubmitted or invalid form shows no results; a valid one shows the results of its validated query |
| Views.SortedPrefix | app/views.py:223-231 | The first n entries of a sorted list are drawn from the input, and no entity left out sorts before a kept one |
| Views.TopByLikesMeaning | app/views.py:223-246 | A ranking has min(limit, rows) entries from the table, each with its real count and none more often than in the table (a sub-multiset); counts are non-increasing; no entity left out has more likes than a listed one; a table that fits is listed in full, zero-like rows included |
| Views.RankingsMeaning | app/views.py:219-252 | Each rankings list has min(10, rows) entries, a sub-multiset of its own table, each with its real count; counts are non-increasing; no row left out has more likes than a listed one; a table of at most ten rows is listed in full |
| Views.RankingsDistinct | app/views.py:219-252 | Over stored tables, whose rows have distinct ids, no crop and no meal appears twice in a rankings list |
| Views.NewestMeaning | app/views.py:34 | The newest-first list has min(n, rows) entries, a sub-multiset of the table, creation numbers non-increasing, none left out newer than one listed, each paired with 0 |
| Views.LikedMeals | app/views.py:18-24 | The inner join over `liked_by_users` sees exactly the meals with at least one like, none more often than in the meal table, and sees nothing iff no meal has a like |
| Views.HomePanelLiked | app/views.py:18-28 | If some meal has a like, the panel shows min(3, liked meals) meals (so 1 to 3), a sub-multiset of the meal table, each with its real count (≥ 1); counts are non-increasing, and no meal left out has more likes than one shown |
| Views.HomePanelNewest | app/views.py:31-35 | If no meal has a like, the panel shows the min(3, meals) newest meals, a sub-multiset of the meal table, newest first, each with count 0 (its real count), and no meal left out is newer |
| Views.HomePanelDistinct | app/views.py:18-35 | Over a stored meal table no meal appears twice on the home panel, in either branch |
| Views.NameListingOrdered | app/views.py:44-55 | The crops (meals) listing holds every row once, with names strictly ascending |
| Views.ToggleLike | app/views.py:255-312 | A missing entity gives NotFound and no change. Otherwise the like table becomes the toggled table, `is_liked` is true iff the pair was absent, and `likes_count` is the new count, the old count plus one on a like or minus one on an unlike. The other table and the records are unchanged |

## Left out

- HTTP and rendering are not modelled: routing, templates, JSON encoding, `get_or_404` status codes, redirects, login and CSRF. `ToggleLike` takes the logged-in user's id and reports a missing entity as `NotFound`.
- Pagination of the crops and meals pages (`paginate`, 12 per page) is not modelled; only the name order before pagination is.
- The crop and meal detail pages are not modelled as views. Their lookups are the two directions of an association table (`Lefts`, `Rights`), which `TwoSided` covers.
- Password hashing and checking (werkzeug) are foreign calls; `SetPassword` stores a given hash.
- The `Email()` validator is a library; its verdict is the `wellFormed` parameter.
- Logging (`log_action`), configuration, the data and image scripts, the admin views and the browser script are outside the model.
- Forms.MealAccepted: the saturation value is an exact decimal (`real`), not a Python float, so a NaN value is not modelled; an absent value and one that does not parse are both `None` and both rejected.
- The `saturation` column itself, the `quantity` column of `meal_ingredients`, `image_url` and the `liked_at` timestamps are not modelled. `created_at` is a creation number.
- Deletion, cascades and concurrent transactions are not modelled; the store only grows, and each operation runs alone.
- `LIKE` wildcards: a `%` or `_` inside the keyword is matched literally in the model, while SQLite treats it as a wildcard.
- Forms.IsLetter: covers ASCII letters only, while `str.isalpha` also accepts non-ASCII letters.
- Forms.IsDigit: covers ASCII digits only, while `str.isdigit` also accepts other Unicode digits.
- Forms.ItemAccepted: does not tell an absent hunger value from one that is not an integer. Both are `None` and both are rejected.
- Views.Like: folds ASCII letters only, as SQLite's `LIKE` does; non-ASCII text is compared exactly.
- The sort key of the single-table `ORDER BY` paths does not fix a tie order. `SearchResults` keeps ties in row-id order; `Search`'s ensures carries that order, but no lemma depends on it.
- The two queries of the `all` scope (app/views.py:124-135) have no `ORDER BY`, so SQLite may return their rows in any order. The model takes each in row-id order, and `SearchStable`'s "order of the concatenated list" rests on that choice.
- Error message texts are not modelled; only which rule failed. The tests expect Chinese messages that the forms do not produce.
- The `String(80)`, `String(100)` and `String(120)` column widths are not modelled; SQLite does not enforce them.

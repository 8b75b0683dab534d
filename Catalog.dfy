/** The entity store of `app/models.py`: users, crops and meals, the three
    association tables (each a set of id pairs, as their composite primary
    keys make them) and the like count read from them. */
module Catalog {
  import opened Wrappers

  type Id = nat

  datatype User = User(id: Id, username: string, email: string, passwordHash: string)

  datatype Crop = Crop(id: Id, name: string, description: Option<string>, hungerPoints: nat, created: nat)

  /** A meal; its floating-point `saturation` is not part of the model. */
  datatype Meal = Meal(id: Id, name: string, description: Option<string>, hungerRestored: nat, created: nat)

  datatype Kind = CropKind | MealKind

  /** A catalog entity of either type, with one accessor per shared column. */
  datatype Entity = CropItem(crop: Crop) | MealItem(meal: Meal) {

    function Id(): Id {
      match this
      case CropItem(c) => c.id
      case MealItem(m) => m.id
    }

    function Name(): string {
      match this
      case CropItem(c) => c.name
      case MealItem(m) => m.name
    }

    function Description(): Option<string> {
      match this
      case CropItem(c) => c.description
      case MealItem(m) => m.description
    }

    /** `hunger_points` of a crop, `hunger_restored` of a meal. */
    function Hunger(): nat {
      match this
      case CropItem(c) => c.hungerPoints
      case MealItem(m) => m.hungerRestored
    }

    /** The creation sequence number that stands for `created_at`. */
    function Created(): nat {
      match this
      case CropItem(c) => c.created
      case MealItem(m) => m.created
    }

    function KindOf(): Kind {
      match this
      case CropItem(_) => CropKind
      case MealItem(_) => MealKind
    }
  }

  function CropItems(crops: seq<Crop>): seq<Entity> {
    seq(|crops|, i requires 0 <= i < |crops| => CropItem(crops[i]))
  }

  function MealItems(meals: seq<Meal>): seq<Entity> {
    seq(|meals|, i requires 0 <= i < |meals| => MealItem(meals[i]))
  }

  // ---------------------------------------------------------------------
  // Association tables

  /** An association table. Its rows are (left id, right id) pairs, and the
      pair is the table's composite primary key, so a row occurs at most once. */
  type Relation = set<(Id, Id)>

  /** The rows of `rel` whose right id is `right`. */
  function RowsWithRight(rel: Relation, right: Id): set<(Id, Id)> {
    set p | p in rel && p.1 == right
  }

  /** The left ids paired with `right`: `crop.liked_by_users` on a like
      table, `crop.meals` on the ingredient table. */
  function Lefts(rel: Relation, right: Id): set<Id> {
    set p | p in rel && p.1 == right :: p.0
  }

  /** The right ids paired with `left`: `user.liked_crops` on a like table,
      `meal.ingredients` on the ingredient table. */
  function Rights(rel: Relation, left: Id): set<Id> {
    set p | p in rel && p.0 == left :: p.1
  }

  /** `get_likes_count`: the number of like rows that name the entity. */
  function LikesCount(rel: Relation, id: Id): nat {
    |RowsWithRight(rel, id)|
  }

  /** The two like tables. */
  datatype Likes = Likes(crops: Relation, meals: Relation)

  function LikeTableOf(likes: Likes, kind: Kind): Relation {
    match kind
    case CropKind => likes.crops
    case MealKind => likes.meals
  }

  /** `get_likes_count` of a crop or a meal. */
  function EntityLikes(likes: Likes, e: Entity): nat {
    LikesCount(LikeTableOf(likes, e.KindOf()), e.Id())
  }

  /** The like table after one toggle of the pair (left, right). */
  function Toggled(rel: Relation, left: Id, right: Id): Relation {
    if (left, right) in rel then rel - {(left, right)} else rel + {(left, right)}
  }

  /** Both sides of a relation see the same rows: the user is among the
      crop's `liked_by_users` iff the crop is among the user's `liked_crops`. */
  lemma TwoSided(rel: Relation, left: Id, right: Id)
    ensures left in Lefts(rel, right) <==> (left, right) in rel
    ensures right in Rights(rel, left) <==> (left, right) in rel
  {
    if (left, right) in rel {
      assert (left, right) in rel && (left, right).1 == right;
      assert (left, right) in rel && (left, right).0 == left;
    }
  }

  /** The count of rows equals the number of distinct users in
      `liked_by_users`, because a row occurs at most once. */
  lemma {:induction false} LikesCountIsLikers(rel: Relation, right: Id)
    ensures LikesCount(rel, right) == |Lefts(rel, right)|
    decreases |rel|
  {
    if rel != {} {
      var p :| p in rel;
      var rest := rel - {p};
      LikesCountIsLikers(rest, right);
      if p.1 == right {
        assert RowsWithRight(rel, right) == RowsWithRight(rest, right) + {p};
        assert p !in RowsWithRight(rest, right);
        assert Lefts(rel, right) == Lefts(rest, right) + {p.0};
        TwoSided(rest, p.0, right);
        assert p.0 !in Lefts(rest, right);
        assert |RowsWithRight(rel, right)| == |RowsWithRight(rest, right)| + 1;
        assert |Lefts(rel, right)| == |Lefts(rest, right)| + 1;
      } else {
        assert RowsWithRight(rel, right) == RowsWithRight(rest, right);
        assert Lefts(rel, right) == Lefts(rest, right);
      }
    } else {
      assert RowsWithRight(rel, right) == {};
      assert Lefts(rel, right) == {};
    }
  }

  /** A toggle touches only its own pair: it flips that pair's presence
      and leaves every other row as it was. */
  lemma ToggleOnlyThePair(rel: Relation, left: Id, right: Id, p: (Id, Id))
    ensures (left, right) in Toggled(rel, left, right) <==> (left, right) !in rel
    ensures p != (left, right) ==> (p in Toggled(rel, left, right) <==> p in rel)
  {
  }

  /** Toggling twice restores the original table. */
  lemma ToggleTwice(rel: Relation, left: Id, right: Id)
    ensures Toggled(Toggled(rel, left, right), left, right) == rel
  {
  }

  /** A like adds one to the entity's count and an unlike takes one away. */
  lemma ToggleCount(rel: Relation, left: Id, right: Id)
    ensures (left, right) in rel ==>
      LikesCount(rel, right) >= 1 && LikesCount(Toggled(rel, left, right), right) == LikesCount(rel, right) - 1
    ensures (left, right) !in rel ==>
      LikesCount(Toggled(rel, left, right), right) == LikesCount(rel, right) + 1
  {
    var t := Toggled(rel, left, right);
    if (left, right) in rel {
      assert RowsWithRight(rel, right) == RowsWithRight(t, right) + {(left, right)};
    } else {
      assert RowsWithRight(t, right) == RowsWithRight(rel, right) + {(left, right)};
    }
  }

  /** A toggle leaves the count of every other entity unchanged. */
  lemma ToggleOtherCount(rel: Relation, left: Id, right: Id, other: Id)
    requires other != right
    ensures LikesCount(Toggled(rel, left, right), other) == LikesCount(rel, other)
  {
    assert RowsWithRight(Toggled(rel, left, right), other) == RowsWithRight(rel, other);
  }

  /** An entity whose id no row names, such as one just created, has no likes. */
  lemma UnnamedEntityHasNoLikes(rel: Relation, bound: nat, id: Id)
    requires forall p :: p in rel ==> p.1 <= bound
    requires bound < id
    ensures LikesCount(rel, id) == 0
  {
    assert RowsWithRight(rel, id) == {};
  }

  /** One like appended for a user and a crop that had none: both sides of
      the relation then have one member. */
  lemma FirstLike(rel: Relation, user: Id, crop: Id)
    requires Rights(rel, user) == {} && Lefts(rel, crop) == {}
    ensures |Rights(rel + {(user, crop)}, user)| == 1
    ensures |Lefts(rel + {(user, crop)}, crop)| == 1
    ensures LikesCount(rel + {(user, crop)}, crop) == 1
  {
    var t := rel + {(user, crop)};
    forall q | q in Rights(t, user) ensures q == crop {
      var p :| p in t && p.0 == user && p.1 == q;
      assert p in rel ==> q in Rights(rel, user);
    }
    TwoSided(t, user, crop);
    assert Rights(t, user) == {crop};
    forall q | q in Lefts(t, crop) ensures q == user {
      var p :| p in t && p.1 == crop && p.0 == q;
      assert p in rel ==> q in Lefts(rel, crop);
    }
    assert Lefts(t, crop) == {user};
    LikesCountIsLikers(t, crop);
  }

  /** Two distinct crops appended to a meal without ingredients: the meal
      then has exactly those two ingredients. */
  lemma TwoIngredients(rel: Relation, meal: Id, crop1: Id, crop2: Id)
    requires Rights(rel, meal) == {}
    requires crop1 != crop2
    ensures Rights(rel + {(meal, crop1), (meal, crop2)}, meal) == {crop1, crop2}
    ensures |Rights(rel + {(meal, crop1), (meal, crop2)}, meal)| == 2
  {
    var t := rel + {(meal, crop1), (meal, crop2)};
    forall q | q in Rights(t, meal) ensures q == crop1 || q == crop2 {
      var p :| p in t && p.0 == meal && p.1 == q;
      assert p in rel ==> q in Rights(rel, meal);
    }
    TwoSided(t, meal, crop1);
    TwoSided(t, meal, crop2);
    assert Rights(t, meal) == {crop1, crop2};
  }

  // ---------------------------------------------------------------------
  // Invariants of the stored tables

  /** Ids are the row ids 1, 2, 3, ... in insertion order (the model never
      deletes), names are unique within the table, and creation numbers
      increase in insertion order and stay below the clock. */
  predicate WellFormedItems(items: seq<Entity>, clock: nat) {
    && (forall i :: 0 <= i < |items| ==> items[i].Id() == i + 1 && items[i].Created() < clock)
    && (forall i, j :: 0 <= i < j < |items| ==>
          items[i].Name() != items[j].Name() && items[i].Created() < items[j].Created())
  }

  /** User ids are the row ids 1, 2, 3, ...; usernames and emails are unique. */
  predicate WellFormedUsers(users: seq<User>) {
    && (forall i :: 0 <= i < |users| ==> users[i].id == i + 1)
    && (forall i, j :: 0 <= i < j < |users| ==>
          users[i].username != users[j].username && users[i].email != users[j].email)
  }

  /** Referential integrity: every row names an existing left and right record. */
  predicate RowsExist(rel: Relation, lefts: nat, rights: nat) {
    forall p :: p in rel ==> 1 <= p.0 <= lefts && 1 <= p.1 <= rights
  }

  /** `User.query.filter_by(username=name).first()` finds a user. */
  predicate HasUsername(users: seq<User>, name: string) {
    exists i :: 0 <= i < |users| && users[i].username == name
  }

  /** `User.query.filter_by(email=email).first()` finds a user. */
  predicate HasEmail(users: seq<User>, email: string) {
    exists i :: 0 <= i < |users| && users[i].email == email
  }

  predicate HasName(items: seq<Entity>, name: string) {
    exists i :: 0 <= i < |items| && items[i].Name() == name
  }

  datatype StoreError = Duplicate

  // ---------------------------------------------------------------------
  // The store

  /** The database: three tables of records and three association tables,
      updated in place as a SQLAlchemy session commits. */
  class Store {
    var users: seq<User>
    var crops: seq<Crop>
    var meals: seq<Meal>
    /** `user_likes_crops`: (user id, crop id). */
    var cropLikes: Relation
    /** `user_likes_meals`: (user id, meal id). */
    var mealLikes: Relation
    /** `meal_ingredients`: (meal id, crop id). */
    var ingredients: Relation
    /** The creation number the next record receives. */
    var clock: nat

    ghost predicate Valid()
      reads this
    {
      && WellFormedUsers(users)
      && WellFormedItems(CropItems(crops), clock)
      && WellFormedItems(MealItems(meals), clock)
      && RowsExist(cropLikes, |users|, |crops|)
      && RowsExist(mealLikes, |users|, |meals|)
      && RowsExist(ingredients, |meals|, |crops|)
    }

    constructor ()
      ensures Valid()
      ensures users == [] && crops == [] && meals == []
      ensures cropLikes == {} && mealLikes == {} && ingredients == {}
    {
      users, crops, meals := [], [], [];
      cropLikes, mealLikes, ingredients := {}, {}, {};
      clock := 0;
    }

    function LikeTables(): Likes
      reads this
    {
      Likes(cropLikes, mealLikes)
    }

    function LikeTable(kind: Kind): Relation
      reads this
    {
      LikeTableOf(LikeTables(), kind)
    }

    /** The stored entities of one type, in insertion (row id) order. */
    function Items(kind: Kind): seq<Entity>
      reads this
    {
      match kind
      case CropKind => CropItems(crops)
      case MealKind => MealItems(meals)
    }

    /** `X.query.get(id)` finds a record. */
    predicate Has(kind: Kind, id: Id)
      reads this
    {
      1 <= id <= |Items(kind)|
    }

    predicate HasUser(id: Id)
      reads this
    {
      1 <= id <= |users|
    }

    /** Adds a user; the unique constraints on username and email refuse a duplicate. */
    method AddUser(username: string, email: string, passwordHash: string) returns (r: Result<Id, StoreError>)
      requires Valid()
      modifies this
      ensures Valid()
      ensures r.Success? <==> !HasUsername(old(users), username) && !HasEmail(old(users), email)
      ensures r.Failure? ==> users == old(users)
      ensures r.Success? ==>
        r.value == |old(users)| + 1 &&
        users == old(users) + [User(r.value, username, email, passwordHash)]
      ensures crops == old(crops) && meals == old(meals) && clock == old(clock)
      ensures cropLikes == old(cropLikes) && mealLikes == old(mealLikes) && ingredients == old(ingredients)
    {
      if HasUsername(users, username) || HasEmail(users, email) {
        return Failure(Duplicate);
      }
      var id := |users| + 1;
      users := users + [User(id, username, email, passwordHash)];
      r := Success(id);
    }

    /** `set_password`: stores the hash that the hashing library computed. */
    method SetPassword(id: Id, passwordHash: string)
      requires Valid() && HasUser(id)
      modifies this
      ensures Valid()
      ensures users == old(users)[id - 1 := old(users)[id - 1].(passwordHash := passwordHash)]
      ensures crops == old(crops) && meals == old(meals) && clock == old(clock)
      ensures cropLikes == old(cropLikes) && mealLikes == old(mealLikes) && ingredients == old(ingredients)
    {
      users := users[id - 1 := users[id - 1].(passwordHash := passwordHash)];
    }

    /** Adds a crop; `hunger_points` defaults to 0 and the unique constraint
        on the name refuses a duplicate. */
    method AddCrop(name: string, description: Option<string>, hungerPoints: Option<nat>)
      returns (r: Result<Id, StoreError>)
      requires Valid()
      modifies this
      ensures Valid()
      ensures r.Success? <==> !HasName(CropItems(old(crops)), name)
      ensures r.Failure? ==> crops == old(crops) && clock == old(clock)
      ensures r.Success? ==>
        r.value == |old(crops)| + 1 &&
        crops == old(crops) + [Crop(r.value, name, description, hungerPoints.GetOr(0), old(clock))] &&
        clock == old(clock) + 1 &&
        LikesCount(cropLikes, r.value) == 0
      ensures users == old(users) && meals == old(meals)
      ensures cropLikes == old(cropLikes) && mealLikes == old(mealLikes) && ingredients == old(ingredients)
    {
      if HasName(CropItems(crops), name) {
        return Failure(Duplicate);
      }
      var id := |crops| + 1;
      UnnamedEntityHasNoLikes(cropLikes, |crops|, id);
      crops := crops + [Crop(id, name, description, hungerPoints.GetOr(0), clock)];
      clock := clock + 1;
      r := Success(id);
      assert forall i :: 0 <= i < |crops| - 1 ==> CropItems(crops)[i] == CropItems(old(crops))[i];
    }

    /** Adds a meal; `hunger_restored` defaults to 0 and the unique constraint
        on the name refuses a duplicate. */
    method AddMeal(name: string, description: Option<string>, hungerRestored: Option<nat>)
      returns (r: Result<Id, StoreError>)
      requires Valid()
      modifies this
      ensures Valid()
      ensures r.Success? <==> !HasName(MealItems(old(meals)), name)
      ensures r.Failure? ==> meals == old(meals) && clock == old(clock)
      ensures r.Success? ==>
        r.value == |old(meals)| + 1 &&
        meals == old(meals) + [Meal(r.value, name, description, hungerRestored.GetOr(0), old(clock))] &&
        clock == old(clock) + 1 &&
        LikesCount(mealLikes, r.value) == 0
      ensures users == old(users) && crops == old(crops)
      ensures cropLikes == old(cropLikes) && mealLikes == old(mealLikes) && ingredients == old(ingredients)
    {
      if HasName(MealItems(meals), name) {
        return Failure(Duplicate);
      }
      var id := |meals| + 1;
      UnnamedEntityHasNoLikes(mealLikes, |meals|, id);
      meals := meals + [Meal(id, name, description, hungerRestored.GetOr(0), clock)];
      clock := clock + 1;
      r := Success(id);
      assert forall i :: 0 <= i < |meals| - 1 ==> MealItems(meals)[i] == MealItems(old(meals))[i];
    }

    /** `meal.ingredients.append(crop)`; the composite key refuses a pair
        that is already present. */
    method AddIngredient(mealId: Id, cropId: Id) returns (ok: bool)
      requires Valid() && Has(MealKind, mealId) && Has(CropKind, cropId)
      modifies this
      ensures Valid()
      ensures ok <==> (mealId, cropId) !in old(ingredients)
      ensures ingredients == old(ingredients) + {(mealId, cropId)}
      ensures users == old(users) && crops == old(crops) && meals == old(meals) && clock == old(clock)
      ensures cropLikes == old(cropLikes) && mealLikes == old(mealLikes)
    {
      ok := (mealId, cropId) !in ingredients;
      ingredients := ingredients + {(mealId, cropId)};
    }

    /** `user.liked_crops.append(crop)` (or `liked_meals`); the composite
        key refuses a pair that is already present. */
    method AppendLike(kind: Kind, userId: Id, id: Id) returns (ok: bool)
      requires Valid() && HasUser(userId) && Has(kind, id)
      modifies this
      ensures Valid()
      ensures ok <==> (userId, id) !in old(LikeTable(kind))
      ensures LikeTable(kind) == old(LikeTable(kind)) + {(userId, id)}
      ensures kind == CropKind ==> mealLikes == old(mealLikes)
      ensures kind == MealKind ==> cropLikes == old(cropLikes)
      ensures users == old(users) && crops == old(crops) && meals == old(meals) && clock == old(clock)
      ensures ingredients == old(ingredients)
    {
      ok := (userId, id) !in LikeTable(kind);
      match kind
      case CropKind => cropLikes := cropLikes + {(userId, id)};
      case MealKind => mealLikes := mealLikes + {(userId, id)};
    }

    /** `user.liked_crops.remove(crop)` (or `liked_meals`); removing a pair
        that is not present fails and changes nothing. */
    method RemoveLike(kind: Kind, userId: Id, id: Id) returns (ok: bool)
      requires Valid()
      modifies this
      ensures Valid()
      ensures ok <==> (userId, id) in old(LikeTable(kind))
      ensures LikeTable(kind) == old(LikeTable(kind)) - {(userId, id)}
      ensures kind == CropKind ==> mealLikes == old(mealLikes)
      ensures kind == MealKind ==> cropLikes == old(cropLikes)
      ensures users == old(users) && crops == old(crops) && meals == old(meals) && clock == old(clock)
      ensures ingredients == old(ingredients)
    {
      ok := (userId, id) in LikeTable(kind);
      match kind
      case CropKind => cropLikes := cropLikes - {(userId, id)};
      case MealKind => mealLikes := mealLikes - {(userId, id)};
    }
  }
}

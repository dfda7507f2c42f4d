/** The `Recipe` table (`backend/core/models.py`) and the store of recipes
    it holds. The store is a sequence of rows in insertion order. */
module Recipes {
  import opened Wrappers
  import opened Normalizer

  /** Column length caps of the `recipes` table. */
  const MealIdCap: nat := 50
  const NameCap: nat := 255
  const CategoryCap: nat := 100
  const AreaCap: nat := 100
  const UrlCap: nat := 500

  /** One row of the `recipes` table. Nullable columns are `Option`s;
      timestamps are whatever clock value the caller passes in. */
  datatype Recipe = Recipe(
    id: nat,
    mealId: string,
    name: string,
    category: Option<string>,
    area: Option<string>,
    instructions: Option<string>,
    imageUrl: Option<string>,
    youtubeUrl: Option<string>,
    ingredients: seq<string>,
    measures: seq<string>,
    tags: seq<string>,
    createdAt: int,
    updatedAt: int,
    isFavorite: bool)

  predicate FitsCap(v: Option<string>, cap: nat) {
    v.None? || |v.value| <= cap
  }

  /** What a stored row satisfies: no text value holds a NUL, and no value
      exceeds its column cap. */
  predicate Storable(r: Recipe) {
    Nul !in r.mealId && Nul !in r.name && NulFreeOpt(r.category) && NulFreeOpt(r.area)
    && NulFreeOpt(r.instructions) && NulFreeOpt(r.imageUrl) && NulFreeOpt(r.youtubeUrl)
    && NulFreeList(r.ingredients) && NulFreeList(r.measures) && NulFreeList(r.tags)
    && |r.mealId| <= MealIdCap && |r.name| <= NameCap
    && FitsCap(r.category, CategoryCap) && FitsCap(r.area, AreaCap)
    && FitsCap(r.imageUrl, UrlCap) && FitsCap(r.youtubeUrl, UrlCap)
  }

  /** The NUL character, which the database driver refuses to send. */
  const Nul: char := 0 as char

  predicate NulFreeOpt(v: Option<string>) {
    v.None? || Nul !in v.value
  }

  predicate NulFreeList(vs: seq<string>) {
    forall v :: v in vs ==> Nul !in v
  }

  /** No text value of the record, scalar or array element, holds a NUL. */
  predicate NulFree(p: ParsedMeal) {
    NulFreeOpt(p.mealId) && NulFreeOpt(p.name) && NulFreeOpt(p.category) && NulFreeOpt(p.area)
    && NulFreeOpt(p.instructions) && NulFreeOpt(p.imageUrl) && NulFreeOpt(p.youtubeUrl)
    && NulFreeList(p.ingredients) && NulFreeList(p.measures) && NulFreeList(p.tags)
  }

  /** No value of the record exceeds its column's `varchar(n)` cap. */
  predicate FitsCaps(p: ParsedMeal) {
    FitsCap(p.mealId, MealIdCap) && FitsCap(p.name, NameCap)
    && FitsCap(p.category, CategoryCap) && FitsCap(p.area, AreaCap)
    && FitsCap(p.imageUrl, UrlCap) && FitsCap(p.youtubeUrl, UrlCap)
  }

  /** What a parsed record must meet to be inserted: the driver accepts
      no NUL character in any text value, no value exceeds its column
      cap, and `meal_id` and `name` are NOT NULL. */
  predicate Insertable(p: ParsedMeal) {
    NulFree(p) && FitsCaps(p) && p.mealId.Some? && p.name.Some?
  }

  /** Why the database refuses a row. */
  datatype InsertError = NulCharacter | NotNull(column: string) | TooLong(column: string)

  /** `r` carries `p`'s fields unchanged. */
  predicate CopiesParsed(r: Recipe, p: ParsedMeal) {
    Some(r.mealId) == p.mealId && Some(r.name) == p.name
    && r.category == p.category && r.area == p.area && r.instructions == p.instructions
    && r.imageUrl == p.imageUrl && r.youtubeUrl == p.youtubeUrl
    && r.ingredients == p.ingredients && r.measures == p.measures && r.tags == p.tags
  }

  /** `Recipe(meal_id=..., ...)` added and flushed: the row the database
      stores for `p` under primary key `id` at time `now`, or the
      constraint it violates. The driver refuses a NUL before sending;
      the server coerces each value to its `varchar(n)` column type, in
      column order, before it checks NOT NULL, so an over-long value is
      reported ahead of a missing `meal_id` or `name`. */
  function NewRecipe(p: ParsedMeal, id: nat, now: int): (r: Result<Recipe, InsertError>)
    ensures r.Ok? <==> Insertable(p)
    ensures r == Err(NulCharacter) <==> !NulFree(p)
    ensures r.Err? && r.error.TooLong? <==> NulFree(p) && !FitsCaps(p)
    ensures r.Err? && r.error.NotNull? <==> NulFree(p) && FitsCaps(p) && (p.mealId.None? || p.name.None?)
    ensures r.Ok? ==> Storable(r.value) && CopiesParsed(r.value, p)
    ensures r.Ok? ==> r.value.id == id && !r.value.isFavorite
                      && r.value.createdAt == now && r.value.updatedAt == now
  {
    if !NulFree(p) then Err(NulCharacter)
    else if !FitsCap(p.mealId, MealIdCap) then Err(TooLong("meal_id"))
    else if !FitsCap(p.name, NameCap) then Err(TooLong("name"))
    else if !FitsCap(p.category, CategoryCap) then Err(TooLong("category"))
    else if !FitsCap(p.area, AreaCap) then Err(TooLong("area"))
    else if !FitsCap(p.imageUrl, UrlCap) then Err(TooLong("image_url"))
    else if !FitsCap(p.youtubeUrl, UrlCap) then Err(TooLong("youtube_url"))
    else if p.mealId.None? then Err(NotNull("meal_id"))
    else if p.name.None? then Err(NotNull("name"))
    else Ok(Recipe(id, p.mealId.value, p.name.value, p.category, p.area, p.instructions,
                   p.imageUrl, p.youtubeUrl, p.ingredients, p.measures, p.tags, now, now, false))
  }

  /** The rows of the table, in insertion order. */
  type Store = seq<Recipe>

  /** Primary keys grow with insertion order. */
  predicate IdsAscending(s: Store) {
    forall i, j :: 0 <= i < j < |s| ==> s[i].id < s[j].id
  }

  /** The UNIQUE constraint on `meal_id`. */
  predicate MealIdsUnique(s: Store) {
    forall i, j :: 0 <= i < j < |s| ==> s[i].mealId != s[j].mealId
  }

  predicate ValidStore(s: Store) {
    IdsAscending(s) && MealIdsUnique(s) && forall i :: 0 <= i < |s| ==> Storable(s[i])
  }

  /** The primary key the next insert receives. */
  function NextId(s: Store): (id: nat)
    requires IdsAscending(s)
    ensures forall i :: 0 <= i < |s| ==> s[i].id < id
  {
    if s == [] then 1 else s[|s| - 1].id + 1
  }

  /** `query(Recipe).filter(Recipe.meal_id == key).first()`; a `None` key
      compares as `IS NULL`, which no stored row matches. */
  function FindByMealId(s: Store, key: Option<string>): (r: Option<Recipe>)
    ensures r.Some? ==> r.value in s && key == Some(r.value.mealId)
    ensures r.None? ==> forall i :: 0 <= i < |s| ==> key != Some(s[i].mealId)
  {
    if s == [] then None
    else if key == Some(s[0].mealId) then Some(s[0])
    else FindByMealId(s[1..], key)
  }

  /** What one check-then-insert step did: the store after it, the row the
      record now corresponds to, and whether that row is new. */
  datatype Upserted = Upserted(store: Store, recipe: Recipe, added: bool)

  /** One step of the import loops: look the record's `meal_id` up; when a
      row has it, leave the store alone (a skip); otherwise insert a new row,
      which fails when the record breaks a column constraint. */
  function UpsertOne(s: Store, p: ParsedMeal, now: int): (r: Result<Upserted, InsertError>)
    requires ValidStore(s)
    ensures r.Err? <==> FindByMealId(s, p.mealId).None? && !Insertable(p)
    ensures r.Ok? ==> ValidStore(r.value.store) && r.value.recipe in r.value.store
                      && Some(r.value.recipe.mealId) == p.mealId
    ensures r.Ok? ==> (r.value.added <==> FindByMealId(s, p.mealId).None?)
    ensures r.Ok? && !r.value.added ==> r.value.store == s
    ensures r.Ok? && r.value.added ==>
              && r.value.store == s + [r.value.recipe]
              && CopiesParsed(r.value.recipe, p)
              && !r.value.recipe.isFavorite
              && r.value.recipe.createdAt == now && r.value.recipe.updatedAt == now
  {
    match FindByMealId(s, p.mealId)
    case Some(existing) => Ok(Upserted(s, existing, false))
    case None =>
      match NewRecipe(p, NextId(s), now)
      case Err(e) => Err(e)
      case Ok(row) =>
        assert ValidStore(s + [row]) by {
          assert forall i :: 0 <= i < |s| ==> s[i].mealId != row.mealId;
        }
        Ok(Upserted(s + [row], row, true))
  }

  /** Importing a record twice never duplicates it: once a record is in, a
      second upsert of the same record is a skip that leaves the store alone. */
  lemma UpsertIdempotent(s: Store, p: ParsedMeal, now: int, later: int)
    requires ValidStore(s)
    requires UpsertOne(s, p, now).Ok?
    ensures var s1 := UpsertOne(s, p, now).value.store;
            && UpsertOne(s1, p, later).Ok?
            && !UpsertOne(s1, p, later).value.added
            && UpsertOne(s1, p, later).value.store == s1
  {
    var u := UpsertOne(s, p, now).value;
    assert u.recipe in u.store;
  }
}

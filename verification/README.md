# Recipe importer and recommender, modelled in Dafny

This project models the deterministic core of a recipe service that imports
recipes from TheMealDB API into a PostgreSQL `recipes` table and recommends
stored recipes. It covers:

- the normaliser that turns a raw API record into recipe fields
  (`parse_meal_data`);
- the `Recipe` row and its column constraints;
- the data service: six search modes, newest-first listing, category and
  ingredient listings, and the two all-or-nothing batch imports;
- the recommendation engine: search with backfill, ingredient ranking,
  category, random, similar and personalised recommendations;
- the sync scripts: the strategy table, the per-category and per-area walks
  with one transaction per partition, and the argument handling of both
  `main` functions.

The database table is a sequence of rows in insertion order, `Recipes.Store`.
Ids ascend with insertion, meal_ids are unique, and every row meets its
column caps and holds no NUL character (`Recipes.ValidStore`), so "order by
id descending" is the reversed store. Wherever the program draws at random
(`random.sample`), the model takes the drawn positions as a parameter. API
responses are parameters too: `Option` is `None` where the API answered JSON
`null`. Clocks are an integer `now`.

Files, one module each:

- `wrappers.dfy`: `Option`, `Result`, `Min`.
- `text.dfy`: Python string operations. These are `strip`, ASCII `lower`,
  `split`/`join`, ILIKE-style containment, string order, and `int()`/`str()`
  on base-10 text.
- `normalizer.dfy`: `parse_meal_data`.
- `recipes.dfy`: the `Recipe` row, the column caps, and one upsert step.
- `lists.dfy`: the subsequence relation.
- `queries.dfy`: `search_recipes`, `get_random_recipes`,
  `get_all_categories`, `get_all_ingredients`.
- `ranking.dfy`: the stable descending sort, first-occurrence dedup, and top-n.
- `recommend.dfy`: the recommendation engine.
- `sync.dfy`: batch imports and the partition walks.
- `cli.dfy`: strategy choice and command-line dispatch.

The program behaves as follows in three places that may be surprising:

- Backfill in `search_and_recommend` can return fewer than `num_results`
  even when the table holds enough recipes. Newest recipes that are already
  search results are dropped after the backfill was sized.
- `get_personalized_recommendations` sizes its random padding before
  removing duplicates. The result can therefore fall short of `num_results`.
- With `num_results == 0` that function still returns one recipe, because
  the loop appends before it compares the count.

## Model

| member | source | states |
|---|---|---|
| Normalizer.ParseMealData | backend/api/client.py:137-174 | ingredients and measures stay aligned, at most 20 of each; every kept ingredient is stripped, non-empty and not "null" in any case; a measure is stripped and either empty or a real value; scalar fields are read with the `''` default and `idMeal` with none |
| Normalizer.ParseAlignment | backend/api/client.py:143-155 | the k-th ingredient and the k-th measure come from the same slot; slots are visited in ascending order; a slot is kept exactly when its ingredient is present |
| Normalizer.KeptSlotsComplete | backend/api/client.py:143-154 | every slot whose ingredient is present is among the kept slots |
| Normalizer.IsNullWordIsLowerNull | backend/api/client.py:153-155 | the letter-by-letter null test agrees with `lower() == 'null'` |
| Normalizer.ParseReadsOnlyKnownKeys | backend/api/client.py:137-174 | two records that agree on the twenty slot keys and the scalar keys parse to the same result, so no other key influences the output |
| Normalizer.TagsRoundTrip | backend/api/client.py:157-161 | tags that are non-empty, stripped and comma-free survive a join with ',' followed by parsing, unchanged and in order |
| Normalizer.TagsArePieces | backend/api/client.py:159-161 | parsed tags are the comma pieces with blanks removed, never more than there are pieces |
| Normalizer.KeepTagsOfClean | backend/api/client.py:161 | filtering blank pieces leaves already clean tags untouched |
| Normalizer.KeepTagsNoComma | backend/api/client.py:161 | no parsed tag contains a comma |
| Text.ParseIntRoundTrip | scripts/sync/daily_sync.py:156 | `int(str(n)) == n` for every integer n |
| Text.InsertSorted | backend/services/data_service.py:144-148 | inserting into a strictly sorted list keeps it strictly sorted, and membership is the old members plus the new one |
| Recipes.NewRecipe | backend/core/models.py:10-26 | a row is built exactly when no text value holds a NUL character, meal_id and name are not null, and no value exceeds its column cap; a NUL is reported as such; otherwise an over-long value is reported as too long, in column order, ahead of a missing meal_id or name, which is a NOT NULL error only when every value fits its cap; the row copies the parsed fields, takes the given id and clock, and starts as not a favourite |
| Recipes.UpsertOne | backend/services/data_service.py:172-196 | an existing meal_id leaves the store unchanged and is a skip; otherwise the new row is appended, or the step fails exactly when the row violates a constraint; the store stays valid |
| Recipes.UpsertIdempotent | backend/services/data_service.py:175-196 | importing the same record a second time is a skip and changes nothing |
| Queries.Filter | backend/services/data_service.py:70-108 | the result holds exactly the stored recipes that match, in store order |
| Queries.SearchRecipes | backend/services/data_service.py:70-110 | a recipe is returned if and only if it is stored and matches the query under the chosen mode; the result is a subsequence of the table, so ids still ascend |
| Queries.FilterKeepsIdsAscending | backend/services/data_service.py:70-108 | filtering keeps ascending ids |
| Queries.OtherSearchTypesSearchEverything | backend/services/data_service.py:99-106 | any unknown search type returns exactly the union of the name, category, area and ingredient searches |
| Queries.IngredientQueryCrossesComma | backend/services/data_service.py:79-83 | the ingredient search matches the comma-joined text, so "t,p" finds a recipe with salt and pepper although neither ingredient contains it |
| Queries.NoCommaNoMatch | backend/services/data_service.py:82 | a query with a comma never matches text without one |
| Queries.NewestFirst | backend/services/data_service.py:112-119 | exactly min(count, size) stored recipes with strictly decreasing ids, and every recipe left out is older than every one returned |
| Queries.AllCategories | backend/services/data_service.py:130-137 | every non-empty stored category appears exactly once and nothing else appears |
| Queries.AllIngredients | backend/services/data_service.py:139-150 | the ingredients of all stored recipes, strictly sorted with no repeats, and nothing else |
| Ranking.InsertDescPermutes | backend/services/recommendation_service.py:69-70 | one insertion step of the descending sort adds exactly the inserted entry |
| Ranking.StableSortPermutes | backend/services/recommendation_service.py:69-70 | the descending sort is a permutation of its input |
| Ranking.StableSortKeepsTies | backend/services/recommendation_service.py:69-70 | entries with equal score keep their input order (Python's sort is stable) |
| Ranking.StableSortKeepsDistinctIds | backend/services/recommendation_service.py:69-70 | sorting cannot create duplicate recipes |
| Ranking.DedupMembers | backend/services/recommendation_service.py:59-62 | the deduplicated list is no longer than its input, and each entry comes from the input with an id not seen before |
| Ranking.DedupIsDistinct | backend/services/recommendation_service.py:59-62 | no id occurs twice in the deduplicated list |
| Ranking.DedupKeepsFirsts | backend/services/recommendation_service.py:59-66 | each kept recipe is the first occurrence of its id in the input, as the dict keeps the first value stored under a key |
| Ranking.DedupCoversUnseen | backend/services/recommendation_service.py:59-66 | the first occurrence of every id not seen beforehand is kept |
| Ranking.Rank | backend/services/recommendation_service.py:63-70 | the ranking is sorted by descending score, has the input's length, and holds every input recipe with its score |
| Ranking.Top | backend/services/recommendation_service.py:72 | the first min(n, size) recipes of the ranking, none scoring below one left out |
| Ranking.TopOfRank | backend/services/recommendation_service.py:69-72 | top-n of a ranking is drawn from the candidates in non-increasing score order; every candidate left out scores no higher than any kept; a short result holds every candidate |
| Recommend.Backfill | backend/services/recommendation_service.py:30-37 | the newest `want` recipes whose ids are not already among the search results, at most `want` of them, newest first, with no repeats |
| Recommend.SearchAndRecommend | backend/services/recommendation_service.py:13-40 | at most n stored recipes without repeats; without backfill, a prefix of the search results; with backfill, all search results first, then exactly the backfill list: of the n - found newest recipes, those not already found, newest first |
| Recommend.BackfillCanUnderfill | backend/services/recommendation_service.py:29-40 | when the newest stored recipe is itself a search result and results are short, the answer has fewer than n recipes, whatever the table size |
| Recommend.MatchCount | backend/services/recommendation_service.py:63-65 | the score is at most the number of wanted ingredients and is positive exactly when some wanted ingredient occurs in one of the recipe's ingredients |
| Recommend.MatchCountCountsUsed | backend/services/recommendation_service.py:63-65 | the score is exactly the number of positions of the wanted-ingredient list whose ingredient occurs, ignoring case, in one of the recipe's ingredients; a wanted ingredient listed twice counts twice |
| Recommend.Candidates | backend/services/recommendation_service.py:52-56 | the candidates are exactly the stored recipes that use at least one wanted ingredient |
| Recommend.IngredientRecommendations | backend/services/recommendation_service.py:42-75 | at most n stored recipes without repeats, all using a wanted ingredient, in non-increasing match count; none left out matches more than one returned; a short answer includes every matching recipe |
| Recommend.IngredientTiesFirstSeen | backend/services/recommendation_service.py:59-70 | among equal match counts the order is that of first appearance in the per-ingredient results |
| Recommend.CategoryRecommendations | backend/services/recommendation_service.py:77-80 | a prefix of the category search with at most n recipes; a short answer holds every matching recipe |
| Recommend.RandomRecommendations | backend/services/recommendation_service.py:82-85 | exactly min(n, size) distinct stored recipes in strictly decreasing id order, and every recipe left out is older than each one returned |
| Recommend.SimilarityScoreIsDoubled | backend/services/recommendation_service.py:116-128 | the integer score is twice the program's fractional score, so both order candidates the same way |
| Recommend.SimilarCandidates | backend/services/recommendation_service.py:108-111 | exactly the other stored recipes that share the category or the area (null equals null), without repeats |
| Recommend.SimilarRecipes | backend/services/recommendation_service.py:100-138 | at most n similar recipes without repeats, in non-increasing score; none left out scores above one returned; a short answer holds every similar recipe |
| Recommend.CategoryPicks | backend/services/recommendation_service.py:149-153 | at most two per preferred category; every pick is stored and matches some preferred category; the first category's block of up to two leads, each matching it, and the picks of the remaining categories follow |
| Recommend.PreferencePicks | backend/services/recommendation_service.py:146-158 | the category picks first, then exactly the up-to-three ingredient recommendations; at most 2 per category plus 3; every pick is stored and matches a preferred category or uses a preferred ingredient |
| Recommend.Merged | backend/services/recommendation_service.py:145-164 | the preference picks come first, unchanged; when they number n or more they are the whole list, otherwise they are followed by exactly the n - picks newest recipes, up to n entries in total |
| Recommend.KeepFirstDistinct | backend/services/recommendation_service.py:166-176 | the loop yields the first distinct-id recipes, as many as the count check lets through |
| Recommend.PersonalizedRecommendations | backend/services/recommendation_service.py:140-176 | the first distinct recipes of picks followed by padding; all stored, no repeats, at most max(n, 1) |
| Recommend.PaddingCanFallShort | backend/services/recommendation_service.py:160-176 | a repeated pick together with a request larger than the picks gives fewer than n recipes |
| Recommend.ZeroRequestedYieldsOne | backend/services/recommendation_service.py:166-176 | asking for 0 recipes when there is any pick returns exactly one |
| Sync.ImportParsed | backend/services/data_service.py:172-198 | a committed batch extends the table, adds plus skips equal the batch size, and one row is reported per record; a batch with only insertable records always commits |
| Sync.ImportedRowsMatch | backend/services/data_service.py:26-55 | every reported row is in the new table and carries its record's meal_id |
| Sync.RollsBackExactly | backend/services/data_service.py:198-204 | a batch rolls back exactly when some record is new to the table as it stands, has not been imported earlier in the batch, and violates a column constraint |
| Sync.ImportBatch | backend/services/data_service.py:170-206 | all or nothing: the table is extended on commit; rollback happens exactly under the blocking condition |
| Sync.SyncWithApi | backend/services/data_service.py:161-208 | on success the table grows by `added`, and added plus skipped is the number of fetched records; an error is raised exactly when the batch is blocked |
| Sync.FetchAndStoreRandomRecipes | backend/services/data_service.py:16-68 | on success one stored row per fetched record, in order, each carrying its record's meal_id and present in the table; an error is raised exactly when the batch is blocked |
| Sync.SyncNewRecipes | scripts/sync/daily_sync.py:25-50 | the reported growth is the number added; when a fetched record blocks the batch the table is unchanged and all three numbers are 0; otherwise the table and the counts are those of the committed import, and every fetched record is counted |
| Sync.SyncPartition | scripts/sync/smart_sync.py:61-124 | `Unnamed` exactly without a name; `Failed` exactly with a name but a null record list or a negative sample size; rolled back exactly when a sampled record blocks the import; otherwise done with the committed import's table and counts, adding plus skipping exactly the sample size; only a done partition changes the table |
| Sync.RunPartitions | scripts/sync/smart_sync.py:61-126 | partitions run in turn and the table only grows; the totals are the sums over the done partitions and never exceed the per-partition share times the count |
| Sync.RunPartitionsTrace | scripts/sync/smart_sync.py:61-126 | each partition meets the table the one before it left and steps it as a single partition does: skipped, failed, rolled back or committed under the conditions above |
| Sync.InsertableSampleCommits | scripts/sync/smart_sync.py:81-117 | a named partition with a record list and a drawable sample whose records can all be inserted always commits |
| Sync.PartitionSync | scripts/sync/smart_sync.py:56-126 | the table only grows, by the added total; added plus skipped never exceed the budget; with any partition selected, the k-th selected entry, named under the key, steps the table in turn with sample size min(count // selected, records) |
| Sync.CategorySync | scripts/sync/smart_sync.py:47-126 | a JSON null category list crashes the walk before the table is touched; otherwise at most three categories, each stepping the table in turn as a partition does, with the totals within the budget |
| Sync.AreaSync | scripts/sync/smart_sync.py:128-207 | a JSON null area list crashes the walk before the table is touched; otherwise at most two areas, each stepping the table in turn as a partition does, with the totals within the budget |
| Sync.SyncByCategories | scripts/sync/daily_sync.py:52-143 | a JSON null category list returns (0, 0, 0) with the table untouched; otherwise the categories step the table in turn as a partition does, within the budget; the reported growth equals the added total |
| Cli.GetSyncStrategy | scripts/sync/smart_sync.py:26-40 | quick below 100 recipes with a budget of 50, random from 100 to 499 with 30, category from 500 with 20 |
| Cli.StrategyBudgetShrinks | scripts/sync/smart_sync.py:26-40 | a larger table never gets a larger budget |
| Cli.SmartPlan | scripts/sync/smart_sync.py:227-231 | the strategy is the lower-cased first argument and the budget the parsed second one, 20 by default; with no arguments both come from the table size |
| Cli.SmartMain | scripts/sync/smart_sync.py:227-247 | an unparsable budget crashes before dispatch; otherwise the quick, category and area runs happen exactly when the planned strategy is that name, with the planned budget, and any other strategy exits |
| Cli.AutomaticNeverArea | scripts/sync/smart_sync.py:227-247 | without arguments the area walk never runs |
| Cli.AutomaticMediumTableExits | scripts/sync/smart_sync.py:35-37 | without arguments, a table of 100 to 499 recipes picks "random", which has no branch in `main`, so the script exits |
| Cli.AutomaticSmallOrLargeTableSyncs | scripts/sync/smart_sync.py:32-40 | without arguments, other table sizes run the quick sync of 50 or the category sync of 20 |
| Cli.SmartStrategyCaseInsensitive | scripts/sync/smart_sync.py:228 | the strategy argument is read regardless of letter case |
| Cli.SmartCountRoundTrip | scripts/sync/smart_sync.py:229 | a budget written as `str(n)` is run with budget n |
| Cli.DailyMain | scripts/sync/daily_sync.py:145-177 | the first argument sets the budget when it parses, 20 otherwise; the category sync runs exactly when the second argument lower-cases to "category" |
| Cli.DailyBadCountKeepsDefault | scripts/sync/daily_sync.py:154-158 | an unparsable budget falls back to 20 |
| Cli.DailyCountRoundTrip | scripts/sync/daily_sync.py:156 | a budget written as `str(n)` is read back as n |
| Cli.DailyOtherMethodsRunRandom | scripts/sync/daily_sync.py:174-177 | any method other than "category" runs the random sync |
| Cli.DailyMethodCaseInsensitive | scripts/sync/daily_sync.py:161 | the method argument is read regardless of letter case |

## Left out

- HTTP calls to TheMealDB, sessions and connections, configuration, logging, `time.sleep` and `sys.exit`: API answers, the clock and random draws are parameters; exits are values of `Cli.SmartAction`.
- `get_trending_recipes`, `get_recipe_by_id`, `get_recipe_count`, the admin tools, `setup.py`, `run.py`, `quick_sync.py` and the frontend: outside the modelled core.
- The order SQL returns unordered rows in: the store order (ascending id) stands in for it.
- Unicode: `lower()` is ASCII only, and `int()` accepts neither non-ASCII digits nor `_` digit separators.
- `ILIKE` patterns: queries containing `%`, `_` or `\` are excluded by `Queries.NoWildcards`, because those characters act as wildcards rather than literals.
- Concurrency between the scripts and the web app, and id gaps that a PostgreSQL sequence leaves after a rollback: ids are the last id plus one.
- Queries.NewestFirst: the count is a `nat`; a negative `LIMIT` is a database error and is not modelled.
- Recommend.SearchAndRecommend: `num_results` is a `nat`; Python's negative slice bounds are not modelled.
- Recommend.IngredientRecommendations: `num_results` is a `nat`, and the per-ingredient SQL `any(lambda …)` filter is taken to mean what the match count computes.
- Recommend.SimilarRecipes: `num_results` is a `nat`.
- Recommend.PersonalizedRecommendations: `num_results` is a `nat`, and a `categories` preference holding a category with wildcard characters is excluded (`UsableCategories`).
- Recommend.CategoryRecommendations: `num_results` is a `nat`.
- Recipes.NewRecipe: PostgreSQL stores an over-long `varchar(n)` value whose excess is all spaces truncated to `n` characters; the model rejects every over-long value instead. With truncation, a padded meal_id would pass the lookup of existing rows and then collide on the unique index, a path the model does not follow.
- Sync.SyncPartition: a category search that returns JSON `null` makes `len()` raise; the model reports this as the partition's `Failed` outcome, just as it does a negative sample size.

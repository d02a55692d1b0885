# Meal record store

A Dafny model of the meal record store of the `meal_max` service
(`meal_max/models/kitchen_model.py`). The store keeps meals in a `meals`
table. Each row has a name, a cuisine, a price, a difficulty (`LOW`, `MED`
or `HIGH`), battle and win counters, and a soft-delete flag. The store
offers these operations:

- creating a meal, which checks its arguments and refuses duplicate names;
- soft-deleting a meal;
- looking a meal up by id or by name;
- recording the outcome of a battle;
- listing a leaderboard sorted by wins or by win percentage.

The model works on an in-memory table:

- `MealRecord`: the `Meal` record and the checks its constructor makes, plus the error outcomes. Each `ValueError` of the source becomes one of `NotFound`, `Deleted`, `Duplicate` or `InvalidArgument`; `InvalidArgument` records which check failed.
- `MealTable`: rows, the argument checks of `create_meal`, the row update of `update_meal_stats`, the table invariant, the name lookup (a walk over the ids in order, as `fetchone` returns the first match), and how rows may evolve over time.
- `LeaderboardQuery`: the leaderboard's SQL query. `Scan` is the table walk with its `WHERE` filter. `SortDesc` is `ORDER BY ... DESC`, an insertion sort. `BuildEntries` is the loop that turns fetched rows into entries.
- `KitchenModel`: the class `Kitchen`. Its fields are `rows: map<int, Row>` and the autoincrement counter `nextId`. `CreateMeal`, `DeleteMeal` and `UpdateMealStats` change the table in place; `GetMealById`, `GetMealByName` and `GetLeaderboard` only read it. Every method keeps `Valid()`, which says:
  - every id is in `[1, nextId)`;
  - every row has a positive price, a valid difficulty and `wins <= battles`;
  - names are unique.

  Every mutator also ensures `Evolves(old(rows), rows)`: no row disappears, descriptions never change, counters never decrease, and a deleted row stays deleted. Two client methods, `DeleteTwice` and `CreateThenLookUp`, combine operations.

Where the code and its own messages or tests point different ways, the model follows the code:

- The `Meal` constructor refuses only a negative price, so it accepts a price of 0. `create_meal` refuses any price that is not greater than 0 (line 66), and the constructor's own message (line 44) says "Price must be a positive value." `NewMeal` models the constructor as written, and `CreateIsStricterThanConstructor` states the difference from `create_meal`. The lookups build their result with the intended constructor; on stored rows, whose prices are positive, the two agree (see Findings).
- `update_meal_stats` checks that the row exists and is not deleted before it looks at the outcome string. So an unknown id with an invalid outcome gives `NotFound`, not `InvalidArgument`.
- `get_leaderboard` tests `"win_pct"` before `"wins"`. An unknown key is refused whatever the table holds.

## Model

| member | source | states |
|---|---|---|
| `MealRecord.NewMeal` | HW/docstrings_testing/meal_max/meal_max/models/kitchen_model.py:31-46 | The `Meal` constructor succeeds exactly when price >= 0 and the difficulty is one of the three levels. A negative price is reported first, then a bad difficulty. An accepted meal keeps every field as given. |
| `MealRecord.NewMealIntended` | HW/docstrings_testing/meal_max/meal_max/models/kitchen_model.py:43-46 | The constructor as intended: it succeeds exactly when price > 0 and the difficulty is valid, and an accepted meal is exactly the given fields. The lookups use it. |
| `MealRecord.ConstructorsDifferOnlyAtZero` | HW/docstrings_testing/meal_max/meal_max/models/kitchen_model.py:43-44 | The constructor as written and as intended agree on every price except 0. There, the one as written accepts a meal and the intended one refuses it with a price error. |
| `MealRecord.DifficultyLevels` | HW/docstrings_testing/meal_max/meal_max/models/kitchen_model.py:45-46 | With a non-negative price, the constructor accepts exactly "LOW", "MED" and "HIGH". |
| `MealTable.CheckCreateArgs` | HW/docstrings_testing/meal_max/meal_max/models/kitchen_model.py:66-69 | The checks of `create_meal` pass exactly when the price is a number greater than 0 and the difficulty is valid. A missing number or a price <= 0 is a price error, checked before the difficulty. |
| `MealTable.CreateIsStricterThanConstructor` | HW/docstrings_testing/meal_max/meal_max/models/kitchen_model.py:43-69 | Whatever `create_meal` accepts, the constructor accepts with the same fields. A price of 0 passes the constructor and is refused by `create_meal`. |
| `MealTable.FindByName` | HW/docstrings_testing/meal_max/meal_max/models/kitchen_model.py:217-218 | The name lookup returns an id in range whose row has that name, and no lower id has that name. It returns nothing exactly when no row in range has the name. |
| `MealTable.FindByNameInTable` | HW/docstrings_testing/meal_max/meal_max/models/kitchen_model.py:217-220 | Under the table invariant, the lookup over all ids finds a name exactly when some row has it, and then it finds that row. |
| `MealTable.NewRow` | HW/docstrings_testing/meal_max/meal_max/models/kitchen_model.py:74-77 | The INSERT stores the given description with 0 battles, 0 wins and not deleted. The new row satisfies the row invariant exactly when the arguments pass `create_meal`'s checks. |
| `MealTable.ParseResult` | HW/docstrings_testing/meal_max/meal_max/models/kitchen_model.py:259-264 | Only "win" and "loss" name a battle outcome; every other string is refused. |
| `MealTable.Recorded` | HW/docstrings_testing/meal_max/meal_max/models/kitchen_model.py:259-262 | The UPDATE adds exactly 1 to battles, and 1 to wins exactly for a win; every other column stays unchanged. |
| `MealTable.RecordedKeepsInvariant` | HW/docstrings_testing/meal_max/meal_max/models/kitchen_model.py:259-262 | A recorded battle keeps wins <= battles, a positive price and a valid difficulty. Losses (battles minus wins) stay the same for a win and grow by 1 for a loss. The row evolves as allowed. |
| `MealTable.EvolvesTransitive` | HW/docstrings_testing/meal_max/meal_max/models/kitchen_model.py:105-121 | Evolution composes over two successive operations: together they do not reset a deleted flag, lower a counter or remove a row. |
| `LeaderboardQuery.ParseSortKey` | HW/docstrings_testing/meal_max/meal_max/models/kitchen_model.py:145-151 | Only "win_pct" and "wins" name a sort order; anything else is refused. |
| `LeaderboardQuery.Scan` | HW/docstrings_testing/meal_max/meal_max/models/kitchen_model.py:140-143 | Every fetched row is a table row in range that is not deleted and has battles > 0, with ratio wins / battles. Ids come in strictly increasing order. |
| `LeaderboardQuery.ScanComplete` | HW/docstrings_testing/meal_max/meal_max/models/kitchen_model.py:140-143 | The table walk skips no row in range that is not deleted and has fought. |
| `LeaderboardQuery.InsertSorted` | HW/docstrings_testing/meal_max/meal_max/models/kitchen_model.py:145-148 | Inserting into a list sorted in descending order keeps it sorted. |
| `LeaderboardQuery.InsertDistinct` | HW/docstrings_testing/meal_max/meal_max/models/kitchen_model.py:145-148 | Inserting a row with a new id keeps the ids distinct. |
| `LeaderboardQuery.SortDesc` | HW/docstrings_testing/meal_max/meal_max/models/kitchen_model.py:145-148 | `ORDER BY ... DESC` returns a permutation of its input (equal multisets) that is sorted in descending order of the key. Distinct ids stay distinct. |
| `LeaderboardQuery.Fetch` | HW/docstrings_testing/meal_max/meal_max/models/kitchen_model.py:140-148 | The whole SELECT ... ORDER BY returns an answer the database may give: the table walk's rows, each once, in descending order of the key. |
| `LeaderboardQuery.EntryOf` | HW/docstrings_testing/meal_max/meal_max/models/kitchen_model.py:161-169 | The dict copies id, meal, cuisine, price, difficulty, battles and wins from the fetched row. For a row with a consistent ratio, percentage times battles is 100 times wins. |
| `LeaderboardQuery.EntryFor` | HW/docstrings_testing/meal_max/meal_max/models/kitchen_model.py:161-169 | The entry of a stored row keeps its id, meal, cuisine, price, difficulty, wins and battles, and its percentage times battles is 100 times wins. |
| `LeaderboardQuery.BuildEntries` | HW/docstrings_testing/meal_max/meal_max/models/kitchen_model.py:159-171 | The loop appends exactly one entry per fetched row, in fetch order. |
| `LeaderboardQuery.RatioOrder` | HW/docstrings_testing/meal_max/meal_max/models/kitchen_model.py:141-146 | For positive battle counts, comparing wins / battles is the same as comparing by cross-multiplication. |
| `LeaderboardQuery.PairOrdered` | HW/docstrings_testing/meal_max/meal_max/models/kitchen_model.py:145-148 | Two rows ordered by the key give entries ordered by wins, or by percentage and by cross-multiplication. |
| `LeaderboardQuery.EntriesMatchTable` | HW/docstrings_testing/meal_max/meal_max/models/kitchen_model.py:140-171 | Every entry is the entry of a table row that is on the leaderboard, and no id occurs twice. |
| `LeaderboardQuery.EntriesCoverTable` | HW/docstrings_testing/meal_max/meal_max/models/kitchen_model.py:140-171 | Every table row that is not deleted and has fought has its entry on the leaderboard. |
| `LeaderboardQuery.FetchedConsistent` | HW/docstrings_testing/meal_max/meal_max/models/kitchen_model.py:141-142 | Every fetched row has battles > 0 and carries the ratio of its own counters. |
| `LeaderboardQuery.EntriesOrdered` | HW/docstrings_testing/meal_max/meal_max/models/kitchen_model.py:145-171 | The entries are in descending order of wins, or of percentage; the percentage order agrees with cross-multiplication. |
| `LeaderboardQuery.LeaderboardOfTable` | HW/docstrings_testing/meal_max/meal_max/models/kitchen_model.py:140-174 | The database may return the walked rows, each once, descending by the key, with ties in any order. For every such answer, the entries built from it list exactly the table's leaderboard rows, each once, in the requested descending order. |
| `KitchenModel.Kitchen.CreateMeal` | HW/docstrings_testing/meal_max/meal_max/models/kitchen_model.py:66-84 | A bad argument gives the argument error with the table unchanged. A name in use gives `Duplicate` with the table unchanged. Otherwise exactly one row is added under the next id: the fields as given, 0 battles, 0 wins, not deleted. Other rows stay unchanged and the invariant is kept. |
| `KitchenModel.Kitchen.DeleteMeal` | HW/docstrings_testing/meal_max/meal_max/models/kitchen_model.py:105-121 | An unknown id gives `NotFound` and a deleted row gives `Deleted`, each with the table unchanged. Otherwise only that row's flag becomes true; its counters, its other fields and all other rows stay unchanged. |
| `KitchenModel.Kitchen.UpdateMealStats` | HW/docstrings_testing/meal_max/meal_max/models/kitchen_model.py:246-266 | `NotFound` and `Deleted` come before the outcome is looked at. An outcome other than "win"/"loss" gives `InvalidArgument` with the table unchanged. A win adds 1 to battles and 1 to wins; a loss adds 1 to battles; nothing else changes, and wins <= battles is kept. |
| `KitchenModel.Kitchen.GetMealById` | HW/docstrings_testing/meal_max/meal_max/models/kitchen_model.py:180-194 | Returns `NotFound` exactly when the id is absent and `Deleted` exactly when its row is deleted. Otherwise it returns the row's id, name, cuisine, price and difficulty. The table is not modified. |
| `KitchenModel.Kitchen.GetMealByName` | HW/docstrings_testing/meal_max/meal_max/models/kitchen_model.py:214-227 | Returns `NotFound` exactly when no row has the name and `Deleted` exactly when the named row is deleted. Otherwise it returns that row's fields. The table is not modified. |
| `KitchenModel.Kitchen.GetLeaderboard` | HW/docstrings_testing/meal_max/meal_max/models/kitchen_model.py:127-174 | The sort key defaults to "wins". An unknown sort key gives `InvalidArgument` whatever the table holds. Otherwise the entries are exactly the rows that are not deleted and have battles > 0, each once. They are sorted descending by wins, or by percentage (equivalently by cross-multiplication), and each percentage is 100 * wins / battles. |
| `KitchenModel.DeleteTwice` | HW/docstrings_testing/meal_max/meal_max/models/kitchen_model.py:108-118 | After a first delete of an existing id, a second delete fails with `Deleted`. A missing id fails with `NotFound` both times. |
| `KitchenModel.CreateThenLookUp` | HW/docstrings_testing/meal_max/meal_max/models/kitchen_model.py:71-84 | A successful creation is found by name: same fields, the new id, 0 battles and 0 wins. A duplicate leaves the table as it was. |

## Left out

- Storage faults: the `sqlite3.Error` log-and-re-raise paths of every operation are not modelled. Each operation either succeeds or fails with one of the four domain errors.
- The connection context manager, cursors, the SQL text and `commit` are replaced by operations on the in-memory `rows` map.
- Logging (`logger`, `configure_logger`) has no effect on behaviour and is left out.
- `utils/random_utils.py` is not part of this model. It is a single HTTP request with a timeout whose response is parsed as a float.
- Concurrency and transaction isolation are left out. The model is sequential, so the check and the change in `delete_meal` and `update_meal_stats` cannot interleave with other callers.
- Prices are exact `real` numbers, not IEEE doubles; they are only compared against 0. So NaN and infinity cannot be expressed. The source's check at line 66 lets both through: `nan <= 0` is false, and so is `inf <= 0`. The model has no such price.
- The order of rows with equal keys on the leaderboard is left open, as SQLite leaves it. `LeaderboardOfTable` holds for every order of ties. The model's own sort puts ties in id order, but `GetLeaderboard`'s contract promises only the order by the key and the permutation.
- Python's dynamic typing of the other arguments (a non-string name or an id that is not an integer) is left out. Only the price's "is it a number" check is modelled, through `PriceArg`.
- `bool` counting as a number in Python is left out. `create_meal` would accept `True` as a price of 1; the model's `PriceArg.Number` covers every value that passes the `isinstance` check, with its numeric value.
- `KitchenModel.Kitchen.GetLeaderboard`: the percentage is the exact value 100 * wins / battles. The source's `round(..., 1)` to one decimal is not modelled, because it is floating-point rounding.
- `LeaderboardQuery.EntryFor`: for the same reason, `winPct` pairs with the source's rounded value only up to that rounding.
- `KitchenModel.Kitchen.GetMealByName`: SQLite's `fetchone` returns one matching row in an order the engine chooses. The model returns the lowest id, and the unique-name invariant makes the two agree.

## Findings

| source | as written | input that shows it | evidently intended | confidence | as-written member | corrected member |
|---|---|---|---|---|---|---|
| HW/docstrings_testing/meal_max/meal_max/models/kitchen_model.py:43-44 | The constructor refuses a price only when it is below 0. | `Meal(id=4, meal="Salad", cuisine="Vegetarian", price=0.0, difficulty="LOW")` is accepted. | A price must be strictly positive. The constructor's own message says "Price must be a positive value", `create_meal` refuses price <= 0 (line 66), and the test at HW/docstrings_testing/meal_max/meal_max/models/test_kitchen_model.py:58-63 expects 0 to be refused; with no `pytest.raises`, that test cannot fail. | medium; not executed | `MealRecord.NewMeal`, with `MealRecord.ConstructorsDifferOnlyAtZero` showing price 0 accepted | `MealRecord.NewMealIntended` |

/** The meal record store: the `meals` table as an object whose operations
    update it in place, with lookups that only read it. */
module KitchenModel {
  import opened MealRecord
  import opened MealTable
  import opened LeaderboardQuery

  class Kitchen {
    /** The rows of the `meals` table, keyed by id. */
    var rows: map<int, Row>
    /** The id the next successful insert receives (autoincrement). */
    var nextId: int

    ghost predicate Valid()
      reads this
    {
      TableInvariant(rows, nextId)
    }

    /** An empty table. */
    constructor ()
      ensures Valid() && rows == map[] && nextId == 1
    {
      rows := map[];
      nextId := 1;
    }

    /** `create_meal`: the argument checks come first and leave the table
        alone; a name already in use is refused as a duplicate; otherwise
        exactly one new row is added, with zero battles and wins and not
        deleted, and every existing row stays as it was. */
    method CreateMeal(meal: string, cuisine: string, price: PriceArg, difficulty: string) returns (r: Result<()>)
      requires Valid()
      modifies this
      ensures Valid() && Evolves(old(rows), rows)
      ensures CheckCreateArgs(price, difficulty).Err? ==>
                r == Err(CheckCreateArgs(price, difficulty).error) && rows == old(rows) && nextId == old(nextId)
      ensures CheckCreateArgs(price, difficulty).Ok? && NameTaken(old(rows), meal) ==>
                r == Err(Duplicate) && rows == old(rows) && nextId == old(nextId)
      ensures CheckCreateArgs(price, difficulty).Ok? && !NameTaken(old(rows), meal) ==>
                && r == Ok(())
                && old(nextId) !in old(rows)
                && rows == old(rows)[old(nextId) := NewRow(meal, cuisine, price.amount, difficulty)]
                && nextId == old(nextId) + 1
    {
      if !price.Number? || price.amount <= 0.0 {
        return Err(InvalidArgument(BadPrice));
      }
      if !IsDifficulty(difficulty) {
        return Err(InvalidArgument(BadDifficulty));
      }
      FindByNameInTable(rows, nextId, meal);
      if FindByName(rows, meal, 1, nextId).Some? {
        return Err(Duplicate);
      }
      rows := rows[nextId := NewRow(meal, cuisine, price.amount, difficulty)];
      nextId := nextId + 1;
      r := Ok(());
    }

    /** `delete_meal`: an unknown id is not found, a deleted row is refused,
        otherwise only that row's deleted flag is set. */
    method DeleteMeal(id: int) returns (r: Result<()>)
      requires Valid()
      modifies this
      ensures Valid() && Evolves(old(rows), rows) && nextId == old(nextId)
      ensures id !in old(rows) ==> r == Err(NotFound) && rows == old(rows)
      ensures id in old(rows) && old(rows)[id].deleted ==> r == Err(Deleted) && rows == old(rows)
      ensures id in old(rows) && !old(rows)[id].deleted ==>
                r == Ok(()) && rows == old(rows)[id := old(rows)[id].(deleted := true)]
    {
      if id !in rows {
        return Err(NotFound);
      }
      if rows[id].deleted {
        return Err(Deleted);
      }
      rows := rows[id := rows[id].(deleted := true)];
      r := Ok(());
    }

    /** `update_meal_stats`: existence and deletion are checked before the
        outcome string is looked at; "win" adds a battle and a win, "loss"
        adds a battle, and anything else is refused with the table left as
        it was. No other row and no other column changes. */
    method UpdateMealStats(id: int, result: string) returns (r: Result<()>)
      requires Valid()
      modifies this
      ensures Valid() && Evolves(old(rows), rows) && nextId == old(nextId)
      ensures id !in old(rows) ==> r == Err(NotFound) && rows == old(rows)
      ensures id in old(rows) && old(rows)[id].deleted ==> r == Err(Deleted) && rows == old(rows)
      ensures id in old(rows) && !old(rows)[id].deleted && result != "win" && result != "loss" ==>
                r == Err(InvalidArgument(BadResult)) && rows == old(rows)
      ensures id in old(rows) && !old(rows)[id].deleted && result == "win" ==>
                && r == Ok(())
                && rows == old(rows)[id := old(rows)[id].(battles := old(rows)[id].battles + 1,
                                                          wins := old(rows)[id].wins + 1)]
      ensures id in old(rows) && !old(rows)[id].deleted && result == "loss" ==>
                r == Ok(()) && rows == old(rows)[id := old(rows)[id].(battles := old(rows)[id].battles + 1)]
    {
      if id !in rows {
        return Err(NotFound);
      }
      if rows[id].deleted {
        return Err(Deleted);
      }
      match ParseResult(result)
      case None =>
        r := Err(InvalidArgument(BadResult));
      case Some(outcome) =>
        RecordedKeepsInvariant(rows[id], outcome);
        rows := rows[id := Recorded(rows[id], outcome)];
        r := Ok(());
    }

    /** `get_meal_by_id`: an unknown id is not found, a deleted row is
        refused and never returned, otherwise the row's fields come back
        as a `Meal` (the constructor's checks always pass on a stored row,
        whose price is positive). */
    function GetMealById(id: int): (r: Result<Meal>)
      reads this
      requires Valid()
      ensures r == Err(NotFound) <==> id !in rows
      ensures r == Err(Deleted) <==> id in rows && rows[id].deleted
      ensures id in rows && !rows[id].deleted ==> r == Ok(MealOf(id, rows[id]))
    {
      if id !in rows then Err(NotFound)
      else if rows[id].deleted then Err(Deleted)
      else NewMealIntended(id, rows[id].meal, rows[id].cuisine, rows[id].price, rows[id].difficulty)
    }

    /** `get_meal_by_name`: the same three outcomes as the lookup by id, for
        the one row (if any) that carries the name. */
    function GetMealByName(name: string): (r: Result<Meal>)
      reads this
      requires Valid()
      ensures r == Err(NotFound) <==> !NameTaken(rows, name)
      ensures forall id :: id in rows && rows[id].meal == name ==>
                && (r == Err(Deleted) <==> rows[id].deleted)
                && (!rows[id].deleted ==> r == Ok(MealOf(id, rows[id])))
    {
      FindByNameInTable(rows, nextId, name);
      match FindByName(rows, name, 1, nextId)
      case None => Err(NotFound)
      case Some(id) =>
        if rows[id].deleted then Err(Deleted)
        else NewMealIntended(id, rows[id].meal, rows[id].cuisine, rows[id].price, rows[id].difficulty)
    }

    /** `get_leaderboard`: an unknown sort key is refused whatever the table
        holds. Otherwise the result lists every row that is not deleted and
        has fought at least once, each exactly once and nothing else, sorted
        in descending order of wins or of win ratio (by cross-multiplication),
        each entry's percentage being 100 * wins / battles. */
    method GetLeaderboard(sortBy: string := "wins") returns (r: Result<seq<Entry>>)
      requires Valid()
      ensures r.Err? <==> sortBy != "wins" && sortBy != "win_pct"
      ensures r.Err? ==> r.error == InvalidArgument(BadSortKey)
      ensures r.Ok? ==> ListsLeaderboardRows(rows, r.value)
      ensures r.Ok? && sortBy == "wins" ==> DescendingByWins(r.value)
      ensures r.Ok? && sortBy == "win_pct" ==> DescendingByWinPct(r.value)
    {
      var key: SortKey;
      match ParseSortKey(sortBy)
      case None =>
        return Err(InvalidArgument(BadSortKey));
      case Some(k) =>
        key := k;
      var fetched := Fetch(rows, nextId, key);
      var board := BuildEntries(fetched);
      LeaderboardOfTable(rows, nextId, key, fetched, board);
      r := Ok(board);
    }
  }

  /** Deleting is not idempotent: once a delete of an id has succeeded or
      been refused as deleted, every further delete of it is refused as
      deleted, and a missing id stays missing. */
  method DeleteTwice(k: Kitchen, id: int) returns (first: Result<()>, second: Result<()>)
    requires k.Valid()
    modifies k
    ensures k.Valid()
    ensures first.Ok? ==> id in old(k.rows) && !old(k.rows)[id].deleted
    ensures first != Err(NotFound) ==> second == Err(Deleted)
    ensures first == Err(NotFound) ==> second == Err(NotFound)
  {
    first := k.DeleteMeal(id);
    second := k.DeleteMeal(id);
  }

  /** A successful creation is visible to the lookup by name with exactly
      the fields given, and its row starts with no battles and no wins. */
  method CreateThenLookUp(k: Kitchen, meal: string, cuisine: string, price: real, difficulty: string)
    returns (created: Result<()>, found: Result<Meal>)
    requires k.Valid()
    modifies k
    ensures k.Valid()
    ensures created.Ok? <==> price > 0.0 && IsDifficulty(difficulty) && !NameTaken(old(k.rows), meal)
    ensures created.Ok? ==> found == Ok(Meal(old(k.nextId), meal, cuisine, price, difficulty))
    ensures created.Ok? ==> old(k.nextId) in k.rows && k.rows[old(k.nextId)].battles == 0 && k.rows[old(k.nextId)].wins == 0
    ensures created == Err(Duplicate) ==> k.rows == old(k.rows)
  {
    created := k.CreateMeal(meal, cuisine, Number(price), difficulty);
    found := k.GetMealByName(meal);
    if created.Ok? {
      assert old(k.nextId) in k.rows && k.rows[old(k.nextId)].meal == meal;
    }
  }
}

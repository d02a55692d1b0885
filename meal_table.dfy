/** The rows of the `meals` table, the argument checks of `create_meal`, the
    row updates that the store's UPDATE statements perform, and the invariant
    every operation keeps. */
module MealTable {
  import opened MealRecord

  /** One row of the `meals` table, keyed by its id elsewhere. */
  datatype Row = Row(
    meal: string,
    cuisine: string,
    price: real,
    difficulty: string,
    battles: nat,
    wins: nat,
    deleted: bool)

  /** The price argument of `create_meal`, which may be a value that is not a number at all. */
  datatype PriceArg = Number(amount: real) | NotANumber

  /** The argument checks `create_meal` makes before it touches the table:
      the price must be a number greater than zero, then the difficulty
      must be one of the three levels. On success it yields the price. */
  function CheckCreateArgs(price: PriceArg, difficulty: string): (r: Result<real>)
    ensures r.Ok? <==> price.Number? && price.amount > 0.0 && IsDifficulty(difficulty)
    ensures r.Ok? ==> r.value == price.amount
    ensures !(price.Number? && price.amount > 0.0) ==> r == Err(InvalidArgument(BadPrice))
    ensures price.Number? && price.amount > 0.0 && !IsDifficulty(difficulty)
            ==> r == Err(InvalidArgument(BadDifficulty))
  {
    if !price.Number? || price.amount <= 0.0 then Err(InvalidArgument(BadPrice))
    else if !IsDifficulty(difficulty) then Err(InvalidArgument(BadDifficulty))
    else Ok(price.amount)
  }

  /** Whatever `create_meal` accepts, the `Meal` constructor accepts too, but
      not the other way round: a price of zero passes the constructor and is
      refused by `create_meal`. */
  lemma CreateIsStricterThanConstructor(id: int, meal: string, cuisine: string, price: PriceArg, difficulty: string)
    ensures CheckCreateArgs(price, difficulty).Ok?
            ==> NewMeal(id, meal, cuisine, price.amount, difficulty) == Ok(Meal(id, meal, cuisine, price.amount, difficulty))
    ensures IsDifficulty(difficulty)
            ==> NewMeal(id, meal, cuisine, 0.0, difficulty).Ok?
                && CheckCreateArgs(Number(0.0), difficulty) == Err(InvalidArgument(BadPrice))
  {
  }

  /** The row an INSERT with the default counters and flag creates: the
      given description, no battles, no wins, not deleted. It satisfies the
      row invariant exactly when the arguments pass the checks of `create_meal`. */
  function NewRow(meal: string, cuisine: string, price: real, difficulty: string): (r: Row)
    ensures r.meal == meal && r.cuisine == cuisine && r.price == price && r.difficulty == difficulty
    ensures r.battles == 0 && r.wins == 0 && !r.deleted
    ensures RowInvariant(r) <==> CheckCreateArgs(Number(price), difficulty).Ok?
  {
    Row(meal, cuisine, price, difficulty, 0, 0, false)
  }

  /** The projection the lookups return: identity and description, no counters. */
  function MealOf(id: int, row: Row): Meal
  {
    Meal(id, row.meal, row.cuisine, row.price, row.difficulty)
  }

  /** What every stored row satisfies. */
  predicate RowInvariant(row: Row)
  {
    row.price > 0.0 && IsDifficulty(row.difficulty) && row.wins <= row.battles
  }

  /** The table invariant: ids are below the next id to hand out, every row
      satisfies RowInvariant, and no two rows share a name (the UNIQUE
      constraint on the `meal` column). */
  ghost predicate TableInvariant(rows: map<int, Row>, nextId: int)
  {
    && 1 <= nextId
    && (forall id :: id in rows ==> 1 <= id < nextId && RowInvariant(rows[id]))
    && (forall i, j :: i in rows && j in rows && rows[i].meal == rows[j].meal ==> i == j)
  }

  ghost predicate NameTaken(rows: map<int, Row>, name: string)
  {
    exists id :: id in rows && rows[id].meal == name
  }

  /** `SELECT ... WHERE meal = ?` followed by `fetchone()`: walks the ids in
      [lo, hi) in order and yields the first one whose row has that name. */
  function FindByName(rows: map<int, Row>, name: string, lo: int, hi: int): (r: Option<int>)
    decreases hi - lo
    ensures r.Some? ==> lo <= r.value < hi && r.value in rows && rows[r.value].meal == name
    ensures r.Some? ==> forall id :: lo <= id < r.value && id in rows ==> rows[id].meal != name
    ensures r.None? <==> forall id :: lo <= id < hi && id in rows ==> rows[id].meal != name
  {
    if lo >= hi then None
    else if lo in rows && rows[lo].meal == name then Some(lo)
    else FindByName(rows, name, lo + 1, hi)
  }

  /** Under the table invariant, the scan over all ids finds a name exactly
      when some row carries it, and then finds that row. */
  lemma FindByNameInTable(rows: map<int, Row>, nextId: int, name: string)
    requires TableInvariant(rows, nextId)
    ensures FindByName(rows, name, 1, nextId).Some? <==> NameTaken(rows, name)
    ensures forall id :: id in rows && rows[id].meal == name ==> FindByName(rows, name, 1, nextId) == Some(id)
  {
    var r := FindByName(rows, name, 1, nextId);
    if NameTaken(rows, name) {
      var id :| id in rows && rows[id].meal == name;
      assert 1 <= id < nextId;
    }
  }

  /** The outcome argument of `update_meal_stats`. */
  datatype BattleResult = Win | Loss

  /** Only the strings "win" and "loss" name an outcome. */
  function ParseResult(s: string): (r: Option<BattleResult>)
    ensures r == Some(Win) <==> s == "win"
    ensures r == Some(Loss) <==> s == "loss"
    ensures r.None? <==> s != "win" && s != "loss"
  {
    if s == "win" then Some(Win)
    else if s == "loss" then Some(Loss)
    else None
  }

  /** The UPDATE of `update_meal_stats`: a win adds one to both battles and
      wins, a loss adds one to battles only. */
  function Recorded(row: Row, outcome: BattleResult): (r: Row)
    ensures r.battles == row.battles + 1
    ensures r.wins == if outcome == Win then row.wins + 1 else row.wins
    ensures r == row.(battles := r.battles, wins := r.wins)
  {
    match outcome
    case Win => row.(battles := row.battles + 1, wins := row.wins + 1)
    case Loss => row.(battles := row.battles + 1)
  }

  /** Recording a battle keeps the row's invariant, keeps the number of
      losses (battles minus wins) for a win and adds one for a loss, and is
      an allowed evolution of the row. */
  lemma RecordedKeepsInvariant(row: Row, outcome: BattleResult)
    requires RowInvariant(row)
    ensures RowInvariant(Recorded(row, outcome))
    ensures Recorded(row, outcome).battles - Recorded(row, outcome).wins
            == if outcome == Win then row.battles - row.wins else row.battles - row.wins + 1
    ensures RowEvolves(row, Recorded(row, outcome))
    ensures Recorded(row, outcome).deleted == row.deleted
  {
  }

  /** How a row may change over time: its description never changes, its
      counters never decrease, and once deleted it stays deleted. */
  predicate RowEvolves(before: Row, after: Row)
  {
    && before.meal == after.meal
    && before.cuisine == after.cuisine
    && before.price == after.price
    && before.difficulty == after.difficulty
    && before.battles <= after.battles
    && before.wins <= after.wins
    && (before.deleted ==> after.deleted)
  }

  /** How the table may change over time: no row is ever removed, and each
      row evolves as RowEvolves allows. */
  ghost predicate Evolves(before: map<int, Row>, after: map<int, Row>)
  {
    forall id :: id in before ==> id in after && RowEvolves(before[id], after[id])
  }

  /** Evolution composes, so the deleted flag is never reset by any sequence
      of operations. */
  lemma EvolvesTransitive(a: map<int, Row>, b: map<int, Row>, c: map<int, Row>)
    requires Evolves(a, b) && Evolves(b, c)
    ensures Evolves(a, c)
  {
  }
}

/** The `Meal` record of the kitchen model, the checks its constructor runs,
    and the error outcomes shared by every operation of the record store. */
module MealRecord {

  /** Which argument check refused a call. */
  datatype ArgumentProblem = BadPrice | BadDifficulty | BadSortKey | BadResult

  /** The failures the record store reports (each a `ValueError` in the source). */
  datatype Error =
    | NotFound
    | Deleted
    | Duplicate
    | InvalidArgument(problem: ArgumentProblem)

  datatype Result<T> = Ok(value: T) | Err(error: Error)

  datatype Option<T> = None | Some(value: T)

  /** The three difficulty levels a meal may have. */
  const Difficulties: seq<string> := ["LOW", "MED", "HIGH"]

  predicate IsDifficulty(d: string)
  {
    d in Difficulties
  }

  /** The fields of a `Meal`; battle counters are not part of it. */
  datatype Meal = Meal(id: int, meal: string, cuisine: string, price: real, difficulty: string)

  /** The `Meal` constructor with its post-initialisation checks: the price is
      checked first and only a negative price is refused (a price of zero is
      accepted), then the difficulty. An accepted meal keeps every field. */
  function NewMeal(id: int, meal: string, cuisine: string, price: real, difficulty: string): (r: Result<Meal>)
    ensures r.Ok? <==> 0.0 <= price && IsDifficulty(difficulty)
    ensures price < 0.0 ==> r == Err(InvalidArgument(BadPrice))
    ensures 0.0 <= price && !IsDifficulty(difficulty) ==> r == Err(InvalidArgument(BadDifficulty))
    ensures r.Ok? ==> r.value.id == id && r.value.meal == meal && r.value.cuisine == cuisine
                      && r.value.price == price && r.value.difficulty == difficulty
  {
    if price < 0.0 then Err(InvalidArgument(BadPrice))
    else if !IsDifficulty(difficulty) then Err(InvalidArgument(BadDifficulty))
    else Ok(Meal(id, meal, cuisine, price, difficulty))
  }

  /** The constructor as its own error message, the argument check of
      `create_meal` and the boundary-price test intend it: a price must be
      strictly positive. The lookups build their `Meal` with this one. */
  function NewMealIntended(id: int, meal: string, cuisine: string, price: real, difficulty: string): (r: Result<Meal>)
    ensures r.Ok? <==> 0.0 < price && IsDifficulty(difficulty)
    ensures price <= 0.0 ==> r == Err(InvalidArgument(BadPrice))
    ensures 0.0 < price && !IsDifficulty(difficulty) ==> r == Err(InvalidArgument(BadDifficulty))
    ensures r.Ok? ==> r.value == Meal(id, meal, cuisine, price, difficulty)
  {
    if price <= 0.0 then Err(InvalidArgument(BadPrice))
    else if !IsDifficulty(difficulty) then Err(InvalidArgument(BadDifficulty))
    else Ok(Meal(id, meal, cuisine, price, difficulty))
  }

  /** The constructor as written and as intended agree on every price but
      zero, which the one as written accepts and the intended one refuses. */
  lemma ConstructorsDifferOnlyAtZero(id: int, meal: string, cuisine: string, price: real, difficulty: string)
    ensures price != 0.0 ==> NewMealIntended(id, meal, cuisine, price, difficulty) == NewMeal(id, meal, cuisine, price, difficulty)
    ensures IsDifficulty(difficulty) ==>
              && NewMeal(id, meal, cuisine, 0.0, difficulty) == Ok(Meal(id, meal, cuisine, 0.0, difficulty))
              && NewMealIntended(id, meal, cuisine, 0.0, difficulty) == Err(InvalidArgument(BadPrice))
  {
  }

  /** Exactly the three listed levels are accepted by the constructor. */
  lemma DifficultyLevels(id: int, meal: string, cuisine: string, price: real, difficulty: string)
    requires 0.0 <= price
    ensures NewMeal(id, meal, cuisine, price, difficulty).Ok?
            <==> difficulty == "LOW" || difficulty == "MED" || difficulty == "HIGH"
  {
    assert Difficulties == ["LOW", "MED", "HIGH"];
  }
}

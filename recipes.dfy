/** The recipe records of the search results page (src/pages/Searched.jsx)
    and the calorie key its sort compares: the `amount` of the first nutrient
    named exactly "Calories", or 0 when there is none. */
module Recipes {

  import opened Wrappers

  /** One entry of a recipe's nutrient list. A missing or `null` amount is `None`. */
  datatype Nutrient = Nutrient(name: string, amount: Option<int>)

  /** A recipe's nutrition block; its nutrient list may be missing. */
  datatype Nutrition = Nutrition(nutrients: Option<seq<Nutrient>>)

  /** A search result as the page uses it: identifier, title, image and the
      optional nutrition block the search requests with each recipe. */
  datatype Recipe = Recipe(id: int, title: string, image: Option<string>, nutrition: Option<Nutrition>)

  /** The nutrient name the sort looks for. */
  const CaloriesName: string := "Calories"

  /** `nutrients.find(n => n.name === name)`: the first nutrient with that
      exact name, or nothing when no nutrient has it. */
  function FindNutrient(nutrients: seq<Nutrient>, name: string): (found: Option<Nutrient>)
    ensures found.None? <==> forall i :: 0 <= i < |nutrients| ==> nutrients[i].name != name
    ensures found.Some? ==> exists i :: 0 <= i < |nutrients| && nutrients[i] == found.value && IsFirstNamed(nutrients, name, i)
  {
    if nutrients == [] then None
    else if nutrients[0].name == name then
      assert IsFirstNamed(nutrients, name, 0);
      Some(nutrients[0])
    else
      var found := FindNutrient(nutrients[1..], name);
      if found.Some? then
        var i :| 0 <= i < |nutrients[1..]| && nutrients[1..][i] == found.value && IsFirstNamed(nutrients[1..], name, i);
        assert nutrients[i + 1] == found.value && IsFirstNamed(nutrients, name, i + 1);
        found
      else
        found
  }

  /** Position `i` holds the first nutrient named `name`. */
  predicate IsFirstNamed(nutrients: seq<Nutrient>, name: string, i: nat) {
    && i < |nutrients|
    && nutrients[i].name == name
    && forall j :: 0 <= j < i ==> nutrients[j].name != name
  }

  /** `x || 0` for a numeric amount: a missing amount and the falsy amount 0 both give 0. */
  function OrZero(amount: Option<int>): (z: int)
    ensures z == 0 || amount == Some(z)
    ensures amount == None || amount == Some(0) ==> z == 0
    ensures z != 0 <==> amount.Some? && amount.value != 0
  {
    if amount.Some? && amount.value != 0 then amount.value else 0
  }

  /** The nutrient list of a recipe, when both the nutrition block and its list are present. */
  function NutrientList(r: Recipe): (list: Option<seq<Nutrient>>)
    ensures list.Some? <==> r.nutrition.Some? && r.nutrition.value.nutrients.Some?
    ensures list.Some? ==> list == r.nutrition.value.nutrients
  {
    if r.nutrition.Some? then r.nutrition.value.nutrients else None
  }

  /** `r.nutrition?.nutrients?.find(n => n.name === "Calories")?.amount || 0`.
      The key is 0 unless the recipe has a nutrient list holding a nutrient
      named "Calories"; then it is the amount of the first such nutrient,
      or 0 when that amount is missing. */
  function CalorieKey(r: Recipe): (key: int)
    ensures NutrientList(r).None? ==> key == 0
    ensures NutrientList(r).Some? ==>
      var ns := NutrientList(r).value;
      && ((forall i :: 0 <= i < |ns| ==> ns[i].name != CaloriesName) ==> key == 0)
      && (forall i: nat :: IsFirstNamed(ns, CaloriesName, i) ==> key == OrZero(ns[i].amount))
  {
    match r.nutrition
    case None => 0
    case Some(nutrition) =>
      match nutrition.nutrients
      case None => 0
      case Some(ns) =>
        var found := FindNutrient(ns, CaloriesName);
        if found.None? then
          0
        else
          FirstNamedUnique(ns, CaloriesName);
          OrZero(found.value.amount)
  }

  /** There is only one first position with a given name. */
  lemma FirstNamedUnique(nutrients: seq<Nutrient>, name: string)
    ensures forall i: nat, j: nat :: IsFirstNamed(nutrients, name, i) && IsFirstNamed(nutrients, name, j) ==> i == j
  {
  }
}

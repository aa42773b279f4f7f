# Recipe browser: instruction normaliser and search result sorter

This project models the two pieces of real logic in a React recipe-browsing
front end. The rest of the application renders pages and calls a third-party
recipe API.

- **Instruction normaliser** (`cleanInstructions`, src/pages/Recipe.jsx).
  It turns the HTML-bearing instruction text of a recipe into an ordered list
  of steps. It removes every `<…>` tag, splits the text on every period, drops
  blank pieces and trims the rest. Module `InstructionSteps`
  (instructions.dfy) models it with pure functions and lemmas.
- **Search result sorter** (`sortRecipes`, src/pages/Searched.jsx). It copies
  the result list. For `"calories-low"` and `"calories-high"` it sorts the copy
  in place by the amount of the recipe's first `"Calories"` nutrient,
  ascending or descending. `Array.prototype.sort` is stable, so ties keep
  their input order. Any other sort type returns the copy unchanged.
  - Module `Recipes` (recipes.dfy) holds the recipe records and the calorie
    key.
  - Module `ResultSort` (result_sort.dfy) holds the sort. Its spec function is
    `StableSort`. The method `SortRecipes` copies the input array into a fresh
    array and sorts it in place with an insertion sort. That sort is proved to
    compute `StableSort`.
  - `StableSort` is proved to be a permutation, sorted, and stable. It is also
    proved to be the only arrangement that is both sorted and stable. So it is
    exactly the result that a stable `Array.prototype.sort` (ECMA-262, 2019
    edition onward) must give.
- Module `Wrappers` (wrappers.dfy) holds `Option`. `None` models a JavaScript
  `undefined` or `null`.

The sort is written for any element type and any integer key. Only the
`Recipe` instance with `CalorieKey` is used. Descending order is ascending
order on the negated key, which is what the comparator `caloriesB - caloriesA`
computes.

## Model

| member | source | states |
|---|---|---|
| InstructionSteps.IsWhitespace | src/pages/Recipe.jsx:51-52 | the characters `trim()` removes: ECMAScript WhiteSpace and LineTerminator, written as code-point ranges |
| InstructionSteps.IsWhitespaceListed | src/pages/Recipe.jsx:51-52 | the range tests of `IsWhitespace` accept exactly the 25 listed WhiteSpace and LineTerminator code points |
| InstructionSteps.Blank | src/pages/Recipe.jsx:51 | the filter `step => step.trim()` drops a piece exactly when it is blank, i.e. every character is whitespace. `Trim` proves its result is empty (falsy) exactly then |
| InstructionSteps.StripTags | src/pages/Recipe.jsx:49 | the global replacement of `<[^>]*>` by the empty string never makes the text longer. Its body scans left to right, and a `<` with a later `>` drops everything through the first such `>` |
| InstructionSteps.StripTagsDropsTag | src/pages/Recipe.jsx:49 | a tag is removed whole and the text around it is kept: if `x` holds no `<` and `t` holds no `>`, removing tags from `x` + `<t>` + `y` gives `x` followed by the result for `y`. With `StripTagsIdentity` this fixes the result on every text |
| InstructionSteps.StripTagsWithoutOpen | src/pages/Recipe.jsx:49 | text with no `<` comes back unchanged |
| InstructionSteps.StripTagsExample | src/pages/Recipe.jsx:49 | `"<b>Boil</b> water. Stir."` becomes `"Boil water. Stir."` |
| InstructionSteps.StripTagsLeavesNoCompleteTag | src/pages/Recipe.jsx:49 | after the global `<[^>]*>` removal, no `<` is followed anywhere later by a `>` |
| InstructionSteps.StripTagsIdentity | src/pages/Recipe.jsx:49 | text with no `<` that has a later `>` passes through tag removal unchanged |
| InstructionSteps.StripTagsIdempotent | src/pages/Recipe.jsx:49 | removing tags a second time changes nothing |
| InstructionSteps.StripTagsKeepsOnlyInput | src/pages/Recipe.jsx:49 | every character left after tag removal occurs in the input: removal introduces no new character |
| InstructionSteps.Split | src/pages/Recipe.jsx:50 | `split('.')` gives one piece more than there are periods, and no piece contains a period |
| InstructionSteps.JoinSplit | src/pages/Recipe.jsx:50 | joining the pieces of `split` with the separator gives back the text (nothing is lost or reordered) |
| InstructionSteps.SplitAfter | src/pages/Recipe.jsx:50 | the text up to the first period is the first piece, and the rest splits on its own |
| InstructionSteps.SplitWithoutSeparator | src/pages/Recipe.jsx:50 | text without a period splits into exactly itself |
| InstructionSteps.TrimStart | src/pages/Recipe.jsx:51-52 | the result is a suffix of the input, everything removed is whitespace, and it does not start with whitespace |
| InstructionSteps.TrimEnd | src/pages/Recipe.jsx:51-52 | the result is a prefix of the input, everything removed is whitespace, and it does not end with whitespace |
| InstructionSteps.Lead | src/pages/Recipe.jsx:51-52 | the number of characters `trim` cuts off the front: all of them are whitespace, and the character after them, if any, is not |
| InstructionSteps.Trim | src/pages/Recipe.jsx:51-52 | `trim()` returns a contiguous piece of the input with only whitespace cut off on both sides. It neither starts nor ends with whitespace, and it is empty exactly when the input is blank |
| InstructionSteps.TrimPieces | src/pages/Recipe.jsx:51-52 | cutting whitespace off the front and then off the back leaves a slice of the input with only whitespace around it and no whitespace at its ends. The slice is empty exactly when the input is blank |
| InstructionSteps.TrimUnchanged | src/pages/Recipe.jsx:52 | text that neither starts nor ends with whitespace is its own trim |
| InstructionSteps.TrimSkipsSpace | src/pages/Recipe.jsx:52 | a leading whitespace character does not change the trim |
| InstructionSteps.NonBlank | src/pages/Recipe.jsx:51 | the filter keeps no more pieces than it is given, and no kept piece is blank |
| InstructionSteps.NonBlankKeepsExclusion | src/pages/Recipe.jsx:51 | a character absent from every piece is absent from every piece the filter keeps |
| InstructionSteps.TrimEach | src/pages/Recipe.jsx:52 | `.map(step => step.trim())` keeps the number of pieces, and item k is the trim of piece k |
| InstructionSteps.Map | src/pages/Recipe.jsx:52 | `Array.prototype.map` with a total callback keeps the number of items, and item k is the callback applied to item k |
| InstructionSteps.KeptPositionsSelect | src/pages/Recipe.jsx:51 | the kept pieces are exactly the pieces at the kept positions, one for one |
| InstructionSteps.KeptPositionsIncrease | src/pages/Recipe.jsx:51 | the kept positions strictly increase, so the filter keeps input order |
| InstructionSteps.KeptPositionsComplete | src/pages/Recipe.jsx:51 | the position of every non-blank piece is kept, so the filter drops only blank pieces |
| InstructionSteps.CleanInstructions | src/pages/Recipe.jsx:46-53 | absent or empty text gives no steps. Every step is non-empty, neither starts nor ends with whitespace, and contains no period. There is at most one step more than there are periods in the tag-stripped text |
| InstructionSteps.StepsFollowText | src/pages/Recipe.jsx:50-52 | step k is the trimmed piece idx[k] of the tag-stripped text split on periods. The indices strictly increase, and every piece that yields no step is blank |
| InstructionSteps.SingleStep | src/pages/Recipe.jsx:49-52 | non-blank text with no period and no tag gives exactly one step, the trimmed text |
| InstructionSteps.CleanInstructionsExample | src/pages/Recipe.jsx:46-53 | `"<b>Boil</b> water. Stir."` gives exactly the steps `"Boil water"` and `"Stir"` |
| InstructionSteps.TwoSentences | src/pages/Recipe.jsx:46-53 | text whose tags strip to two sentences, each ended by a period with one space before the second, gives the two sentences as the steps. The empty piece after the last period is dropped |
| InstructionSteps.RenderStep | src/pages/Recipe.jsx:140 | the text of `<li>{step}.</li>` is the step unchanged followed by exactly one period |
| InstructionSteps.RenderedStepHasOnePeriod | src/pages/Recipe.jsx:139-141 | a rendered list item is the step plus a final period. That period is the only one in the item, and dropping it gives back the step |
| Recipes.FindNutrient | src/pages/Searched.jsx:24 | `find` returns nothing exactly when no nutrient has the name. Otherwise it returns a nutrient with that name at the first position that has it |
| Recipes.NutrientList | src/pages/Searched.jsx:24 | `r.nutrition?.nutrients` is present exactly when the nutrition block and its nutrient list are both present, and it is then that list |
| Recipes.OrZero | src/pages/Searched.jsx:24-25 | `amount \|\| 0` is either 0 or the amount itself. A missing amount and an amount of 0 both give 0, and the result is non-zero exactly when the amount is present and non-zero |
| Recipes.CalorieKey | src/pages/Searched.jsx:24-25 | the key is 0 when the nutrition block or its nutrient list is missing, or when no nutrient is named exactly "Calories". Otherwise it is the amount of the first "Calories" nutrient, with a missing amount read as 0 |
| ResultSort.Compare | src/pages/Searched.jsx:23-33 | the two comparator callbacks, `caloriesA - caloriesB` for "calories-low" (line 26) and `caloriesB - caloriesA` for "calories-high" (line 32). The result is negative, zero or positive exactly when the first recipe's rank is below, equal to or above the second's, where the rank is the calorie key for "calories-low" and the negated key for "calories-high" |
| ResultSort.Insert | src/pages/Searched.jsx:23-33 | one insertion step of the sort adds exactly one element. Its order and content are stated by `InsertPermutes`, `InsertSorted`, `InsertKeepsTies` and `InsertLandsAt` |
| ResultSort.StableSort | src/pages/Searched.jsx:23-33 | the sort keeps the number of elements. That it is a permutation, sorted and stable is stated by `StableSortPermutes`, `StableSortSorted` and `StableSortKeepsTies`, and `StableSortUnique` shows no other result is possible |
| ResultSort.InsertPermutes | src/pages/Searched.jsx:23-33 | inserting adds the new element and loses nothing (multiset) |
| ResultSort.StableSortPermutes | src/pages/Searched.jsx:23-33 | the stable sort is a permutation of its input |
| ResultSort.InsertSorted | src/pages/Searched.jsx:23-33 | inserting into a sequence sorted by the comparator keeps it sorted |
| ResultSort.StableSortSorted | src/pages/Searched.jsx:23-33 | the stable sort's output is ordered by the comparator of its direction |
| ResultSort.InsertKeepsTies | src/pages/Searched.jsx:23-33 | for every key value, inserting lists the elements with that key as appending would: the new element goes after all its ties |
| ResultSort.StableSortKeepsTies | src/pages/Searched.jsx:23-33 | elements with equal keys keep their relative input order (stability) |
| ResultSort.SortedTiesDetermine | src/pages/Searched.jsx:23-33 | two arrangements that are both sorted and agree on the order within every group of equal keys are equal |
| ResultSort.StableSortUnique | src/pages/Searched.jsx:23-33 | any arrangement that is sorted by the comparator and keeps ties in input order equals the stable sort |
| ResultSort.InsertLandsAt | src/pages/Searched.jsx:23-33 | inserting into a prefix puts the new element right after the last element that does not rank above it, with every element that ranks above it moved after it in order |
| ResultSort.InsertAt | src/pages/Searched.jsx:23-33 | one in-place insertion pass moves cell i left to a position j. Every cell it passes ranks strictly above it and shifts one cell right, the cell before j does not rank above it, and the cells after i are unchanged |
| ResultSort.SortStep | src/pages/Searched.jsx:23-33 | one insertion pass over an array whose first i cells hold the stable sort of the first i input elements leaves the stable sort of the first i+1 there |
| ResultSort.InsertionSort | src/pages/Searched.jsx:23-33 | sorting the array in place leaves exactly the stable sort of its old contents |
| ResultSort.SortedByCaloriesMeans | src/pages/Searched.jsx:22-33 | sorted by the "calories-low" comparator means calorie keys never decrease. Sorted by the "calories-high" comparator means they never increase |
| ResultSort.Arranged | src/pages/Searched.jsx:18-37 | the result is a permutation of the input and keeps ties in input order. Calorie keys never decrease for "calories-low" and never increase for "calories-high". Any other sort type gives the input unchanged |
| ResultSort.SortRecipes | src/pages/Searched.jsx:18-37 | the method returns a fresh array holding `Arranged` of the input and leaves the input array untouched |
| ResultSort.ShownRecipes | src/pages/Searched.jsx:88-124 | with no search results the alternatives are shown unsorted. Otherwise the shown list is a permutation of the results, sorted as the sort type asks, and equal calorie keys keep the order of the results. Any other sort type shows the results as they came |
| ResultSort.MissingNutritionSortsFirst | src/pages/Searched.jsx:22-27 | with non-negative keys, only key-0 recipes come before a recipe without nutrient data under "calories-low" |
| ResultSort.MissingNutritionSortsLast | src/pages/Searched.jsx:28-33 | with non-negative keys, only key-0 recipes come after a recipe without nutrient data under "calories-high" |

## Left out

- All network requests, HTTP status checks, JSON parsing and the zero-results fallback request (src/pages/Searched.jsx:39-70, src/pages/Recipe.jsx:19-34, src/components/Popular.jsx, src/components/Veggie.jsx). These are asynchronous I/O. `ShownRecipes` takes the search results and the alternatives as parameters.
- The cache check in the popular and vegetarian carousels. It rests on a browser-storage helper module that is not part of this model.
- `getRandomCalories` (src/pages/Recipe.jsx:55-59). It draws from `Math.random` and rounds floating-point values.
- `handleShare` and `handleImageError`, which call browser APIs (sharing, clipboard, DOM styles).
- React state, effects, styled components, carousel settings, the navigation bar, the back button, the cuisines page and public/favicon.js. These are presentation only.
- Calorie amounts are integers. The floating-point amounts of the API and the `NaN` cases of the subtraction comparator are not modelled. The comparator is treated as the total order on the key.
- Characters are Unicode scalar values. JavaScript strings are UTF-16 code units, so surrogate pairs are not modelled. The class `[^>]` in the tag pattern does match single surrogate code units. But `<`, `>`, `.` and every character `trim` removes lie in the Basic Multilingual Plane and are not surrogates. So reading a surrogate pair as one character does not change which spans the pattern removes, where `split('.')` cuts, or what `trim` cuts off.
- Instruction values of a non-string type are not modelled. The text is either absent or a string.
- Recipes are values. Two recipes with equal fields are indistinguishable here, while JavaScript objects have identity. Stability is stated on the sequence of recipes with each key value, which still tells equal-keyed recipes apart by position.
- Splitting on every period also splits abbreviations and decimals ("1 tbsp. oil" gives two steps). The model keeps this behaviour of the code.

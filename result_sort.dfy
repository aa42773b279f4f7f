/** The search result sorter of src/pages/Searched.jsx (`sortRecipes`): the
    result list is copied, and for "calories-low" or "calories-high" the copy
    is sorted in place by the calorie key, ascending or descending, with the
    stable `Array.prototype.sort`; any other sort type returns the copy as it
    is. */
module ResultSort {

  import opened Recipes

  // ---------------------------------------------------------------------------
  // Order and ties, for any element type and integer key
  // ---------------------------------------------------------------------------

  /** The two directions the calorie sort runs in. */
  datatype Direction = LowToHigh | HighToLow

  /** The value the comparator orders by: the key itself for "calories-low",
      its negation for "calories-high". */
  function Rank<T>(x: T, key: T -> int, dir: Direction): int {
    if dir == LowToHigh then key(x) else -key(x)
  }

  /** The comparator the page passes to `sort`: `keyA - keyB` for
      "calories-low", `keyB - keyA` for "calories-high". It puts `a` before
      `b` (negative), treats them as tied (zero) or puts `b` first (positive)
      exactly as their ranks compare. */
  function Compare<T>(a: T, b: T, key: T -> int, dir: Direction): (c: int)
    ensures c < 0 <==> Rank(a, key, dir) < Rank(b, key, dir)
    ensures c == 0 <==> Rank(a, key, dir) == Rank(b, key, dir)
    ensures c > 0 <==> Rank(a, key, dir) > Rank(b, key, dir)
  {
    if dir == LowToHigh then key(a) - key(b) else key(b) - key(a)
  }

  /** `s` is in the order the comparator of `dir` asks for. */
  predicate SortedBy<T>(s: seq<T>, key: T -> int, dir: Direction) {
    forall i, j :: 0 <= i < j < |s| ==> Rank(s[i], key, dir) <= Rank(s[j], key, dir)
  }

  /** The elements of `s` whose key is `c`, in their order in `s`. */
  function WithKey<T>(s: seq<T>, key: T -> int, c: int): seq<T> {
    if s == [] then []
    else WithKey(s[..|s| - 1], key, c) + (if key(s[|s| - 1]) == c then [s[|s| - 1]] else [])
  }

  /** Elements with equal keys come in the same relative order in `t` as in
      `s` (and there are as many of them): what stability promises. */
  ghost predicate SameTies<T>(t: seq<T>, s: seq<T>, key: T -> int) {
    forall c :: WithKey(t, key, c) == WithKey(s, key, c)
  }

  // ---------------------------------------------------------------------------
  // The stable sort, as a function
  // ---------------------------------------------------------------------------

  /** Places `x` after the last element of `s` that does not rank above it:
      the elements that rank strictly above `x` move after it, ties stay before. */
  function Insert<T>(s: seq<T>, x: T, key: T -> int, dir: Direction): (r: seq<T>)
    ensures |r| == |s| + 1
    decreases |s|
  {
    if s == [] then [x]
    else if Rank(s[|s| - 1], key, dir) > Rank(x, key, dir) then
      Insert(s[..|s| - 1], x, key, dir) + [s[|s| - 1]]
    else
      s + [x]
  }

  /** Stable insertion sort by the rank of `dir`, taking the elements of `s`
      in order. The result is a permutation of `s`. */
  function StableSort<T>(s: seq<T>, key: T -> int, dir: Direction): (r: seq<T>)
    ensures |r| == |s|
  {
    if s == [] then []
    else
      Insert(StableSort(s[..|s| - 1], key, dir), s[|s| - 1], key, dir)
  }

  /** Inserting adds `x` and loses nothing. */
  lemma {:induction false} InsertPermutes<T>(s: seq<T>, x: T, key: T -> int, dir: Direction)
    ensures multiset(Insert(s, x, key, dir)) == multiset(s) + multiset{x}
    decreases |s|
  {
    if s != [] && Rank(s[|s| - 1], key, dir) > Rank(x, key, dir) {
      InsertPermutes(s[..|s| - 1], x, key, dir);
      assert s == s[..|s| - 1] + [s[|s| - 1]];
    }
  }

  /** The stable sort is a permutation of its input. */
  lemma {:induction false} StableSortPermutes<T>(s: seq<T>, key: T -> int, dir: Direction)
    ensures multiset(StableSort(s, key, dir)) == multiset(s)
  {
    if s != [] {
      StableSortPermutes(s[..|s| - 1], key, dir);
      InsertPermutes(StableSort(s[..|s| - 1], key, dir), s[|s| - 1], key, dir);
      assert s == s[..|s| - 1] + [s[|s| - 1]];
    }
  }

  /** Inserting into a sorted sequence keeps it sorted. */
  lemma {:induction false} InsertSorted<T>(s: seq<T>, x: T, key: T -> int, dir: Direction)
    requires SortedBy(s, key, dir)
    ensures SortedBy(Insert(s, x, key, dir), key, dir)
    decreases |s|
  {
    if s == [] {
    } else if Rank(s[|s| - 1], key, dir) > Rank(x, key, dir) {
      var init, last := s[..|s| - 1], s[|s| - 1];
      InsertSorted(init, x, key, dir);
      InsertPermutes(init, x, key, dir);
      var r := Insert(init, x, key, dir);
      forall i | 0 <= i < |r| ensures Rank(r[i], key, dir) <= Rank(last, key, dir) {
        var y := r[i];
        assert y in multiset(r);
        if y != x {
          assert y in multiset(init);
          var m :| 0 <= m < |init| && init[m] == y;
          assert s[m] == y;
        }
      }
      SortedSnoc(r, last, key, dir);
    } else {
      SortedSnoc(s, x, key, dir);
    }
  }

  /** Appending an element that ranks at least as high as every element keeps the order. */
  lemma SortedSnoc<T>(s: seq<T>, x: T, key: T -> int, dir: Direction)
    requires SortedBy(s, key, dir)
    requires forall i :: 0 <= i < |s| ==> Rank(s[i], key, dir) <= Rank(x, key, dir)
    ensures SortedBy(s + [x], key, dir)
  {
  }

  /** The stable sort orders by the comparator of `dir`. */
  lemma {:induction false} StableSortSorted<T>(s: seq<T>, key: T -> int, dir: Direction)
    ensures SortedBy(StableSort(s, key, dir), key, dir)
  {
    if s != [] {
      StableSortSorted(s[..|s| - 1], key, dir);
      InsertSorted(StableSort(s[..|s| - 1], key, dir), s[|s| - 1], key, dir);
    }
  }

  /** The elements with a given key in `s + [x]`. */
  lemma WithKeySnoc<T>(s: seq<T>, x: T, key: T -> int, c: int)
    ensures key(x) == c ==> WithKey(s + [x], key, c) == WithKey(s, key, c) + [x]
    ensures key(x) != c ==> WithKey(s + [x], key, c) == WithKey(s, key, c)
  {
    assert (s + [x])[..|s + [x]| - 1] == s;
  }

  /** Inserting `x` puts it after every element with its key, as appending
      it would: the elements it passes over all have another key. */
  lemma {:induction false} InsertKeepsTies<T>(s: seq<T>, x: T, key: T -> int, dir: Direction, c: int)
    ensures WithKey(Insert(s, x, key, dir), key, c) == WithKey(s + [x], key, c)
    decreases |s|
  {
    if s != [] && Rank(s[|s| - 1], key, dir) > Rank(x, key, dir) {
      var init, last := s[..|s| - 1], s[|s| - 1];
      InsertKeepsTies(init, x, key, dir, c);
      WithKeySnoc(Insert(init, x, key, dir), last, key, c);
      WithKeySnoc(init, x, key, c);
      WithKeySnoc(init, last, key, c);
      WithKeySnoc(s, x, key, c);
      assert s == init + [last];
      assert key(last) != key(x);
    }
  }

  /** The stable sort keeps elements with equal keys in input order. */
  lemma {:induction false} StableSortKeepsTies<T>(s: seq<T>, key: T -> int, dir: Direction)
    ensures SameTies(StableSort(s, key, dir), s, key)
  {
    if s != [] {
      var init, last := s[..|s| - 1], s[|s| - 1];
      StableSortKeepsTies(init, key, dir);
      forall c ensures WithKey(StableSort(s, key, dir), key, c) == WithKey(s, key, c) {
        InsertKeepsTies(StableSort(init, key, dir), last, key, dir, c);
        WithKeySnoc(StableSort(init, key, dir), last, key, c);
        WithKeySnoc(init, last, key, c);
        assert s == init + [last];
      }
    }
  }

  // ---------------------------------------------------------------------------
  // Sorted and stable determines the result
  // ---------------------------------------------------------------------------

  /** The elements with key `c` are elements of `s` with key `c`, and every
      element of `s` is among those with its own key. */
  lemma {:induction false} WithKeyMembers<T>(s: seq<T>, key: T -> int, c: int)
    ensures forall y :: y in WithKey(s, key, c) ==> y in s && key(y) == c
    ensures forall y :: y in s && key(y) == c ==> y in WithKey(s, key, c)
  {
    if s != [] {
      var init := s[..|s| - 1];
      WithKeyMembers(init, key, c);
      assert s == init + [s[|s| - 1]];
    }
  }

  /** Equal sequences with one element appended had equal beginnings and ends. */
  lemma SnocInjective<T>(a: seq<T>, x: T, b: seq<T>, y: T)
    requires a + [x] == b + [y]
    ensures a == b && x == y
  {
    assert a == (a + [x])[..|a|] && b == (b + [y])[..|b|];
    assert x == (a + [x])[|a|] && y == (b + [y])[|b|];
  }

  /** Nothing in a sorted sequence ranks above its last element. */
  lemma LastRanksHighest<T>(s: seq<T>, key: T -> int, dir: Direction, y: T)
    requires SortedBy(s, key, dir) && y in s
    ensures Rank(y, key, dir) <= Rank(s[|s| - 1], key, dir)
  {
  }

  /** An element of `u` has the key of the last element of `t` and ranks no
      higher than the last element of `u`. */
  lemma LastRankBounded<T>(t: seq<T>, u: seq<T>, key: T -> int, dir: Direction)
    requires t != [] && u != []
    requires SortedBy(u, key, dir) && SameTies(t, u, key)
    ensures Rank(t[|t| - 1], key, dir) <= Rank(u[|u| - 1], key, dir)
  {
    var lt := t[|t| - 1];
    WithKeyMembers(t, key, key(lt));
    WithKeyMembers(u, key, key(lt));
    assert WithKey(t, key, key(lt)) == WithKey(u, key, key(lt));
    var yu :| yu in WithKey(u, key, key(lt));
    LastRanksHighest(u, key, dir, yu);
  }

  /** Two arrangements that are both sorted by `dir`, non-empty and agree
      on the order of every group of equal keys end in the same element, and
      agree on the groups without it. */
  lemma SortedTiesSameLast<T>(t: seq<T>, u: seq<T>, key: T -> int, dir: Direction)
    requires t != [] && u != []
    requires SortedBy(t, key, dir) && SortedBy(u, key, dir) && SameTies(t, u, key)
    ensures t[|t| - 1] == u[|u| - 1]
    ensures SameTies(t[..|t| - 1], u[..|u| - 1], key)
  {
    var lt, lu := t[|t| - 1], u[|u| - 1];
    var t', u' := t[..|t| - 1], u[..|u| - 1];
    LastRankBounded(t, u, key, dir);
    LastRankBounded(u, t, key, dir);
    var c0 := key(lt);
    assert key(lu) == c0;
    assert t == t' + [lt] && u == u' + [lu];
    WithKeySnoc(t', lt, key, c0);
    WithKeySnoc(u', lu, key, c0);
    assert WithKey(t, key, c0) == WithKey(u, key, c0);
    SnocInjective(WithKey(t', key, c0), lt, WithKey(u', key, c0), lu);
    forall c ensures WithKey(t', key, c) == WithKey(u', key, c) {
      if c != c0 {
        WithKeySnoc(t', lt, key, c);
        WithKeySnoc(u', lu, key, c);
        assert WithKey(t, key, c) == WithKey(u, key, c);
      }
    }
  }

  /** Two arrangements that are both sorted by `dir` and agree on the order
      of every group of equal keys are the same sequence. */
  lemma {:induction false} SortedTiesDetermine<T>(t: seq<T>, u: seq<T>, key: T -> int, dir: Direction)
    requires SortedBy(t, key, dir) && SortedBy(u, key, dir) && SameTies(t, u, key)
    ensures t == u
    decreases |t|
  {
    if t == [] || u == [] {
      if t != [] || u != [] {
        var y := if t != [] then t[0] else u[0];
        WithKeyMembers(t, key, key(y));
        WithKeyMembers(u, key, key(y));
        assert false;
      }
    } else {
      SortedTiesSameLast(t, u, key, dir);
      SortedTiesDetermine(t[..|t| - 1], u[..|u| - 1], key, dir);
      assert t == t[..|t| - 1] + [t[|t| - 1]] && u == u[..|u| - 1] + [u[|u| - 1]];
    }
  }

  /** The stable sort is the only arrangement of `s` that is sorted by `dir`
      and keeps every group of equal keys in input order: it is the result
      a stable `Array.prototype.sort` must produce. */
  lemma StableSortUnique<T>(s: seq<T>, t: seq<T>, key: T -> int, dir: Direction)
    requires SortedBy(t, key, dir) && SameTies(t, s, key)
    ensures t == StableSort(s, key, dir)
  {
    StableSortSorted(s, key, dir);
    StableSortKeepsTies(s, key, dir);
    SortedTiesDetermine(t, StableSort(s, key, dir), key, dir);
  }

  /** One more element of the input sorted: the stable sort of the first
      `i + 1` elements inserts element `i` into the stable sort of the first `i`. */
  lemma StableSortExtend<T>(input: seq<T>, i: nat, key: T -> int, dir: Direction)
    requires i < |input|
    ensures StableSort(input[..i + 1], key, dir) == Insert(StableSort(input[..i], key, dir), input[i], key, dir)
  {
    assert input[..i + 1][..i] == input[..i];
  }

  /** `x` lands at position `j` of a sorted prefix when every element from
      `j` on ranks strictly above it and the element before `j`, if any,
      does not: the elements it passes keep their order after it. */
  lemma {:induction false} InsertLandsAt<T>(prefix: seq<T>, x: T, j: nat, key: T -> int, dir: Direction)
    requires j <= |prefix|
    requires forall k :: j <= k < |prefix| ==> Rank(prefix[k], key, dir) > Rank(x, key, dir)
    requires j == 0 || Rank(prefix[j - 1], key, dir) <= Rank(x, key, dir)
    ensures Insert(prefix, x, key, dir) == prefix[..j] + [x] + prefix[j..]
    decreases |prefix| - j
  {
    if j == |prefix| {
      assert prefix[..j] == prefix && prefix[j..] == [];
    } else {
      var init, last := prefix[..|prefix| - 1], prefix[|prefix| - 1];
      InsertLandsAt(init, x, j, key, dir);
      assert init[..j] == prefix[..j];
      assert init[j..] + [last] == prefix[j..];
    }
  }

  /** One step of the insertion sort: element `i` moves left past the
      elements before it that rank strictly above it, which shift one cell
      right, and lands at position `j`. */
  method InsertAt<T>(a: array<T>, i: nat, key: T -> int, dir: Direction) returns (j: nat)
    requires i < a.Length
    modifies a
    ensures j <= i
    ensures a[..i + 1] == old(a[..j]) + [old(a[i])] + old(a[j..i])
    ensures a[i + 1..] == old(a[i + 1..])
    ensures forall k :: j <= k < i ==> Rank(old(a[k]), key, dir) > Rank(old(a[i]), key, dir)
    ensures j == 0 || Rank(old(a[j - 1]), key, dir) <= Rank(old(a[i]), key, dir)
  {
    var x := a[i];
    j := i;
    while j > 0 && Rank(a[j - 1], key, dir) > Rank(x, key, dir)
      invariant 0 <= j <= i
      invariant forall k :: 0 <= k < j ==> a[k] == old(a[k])
      invariant forall k :: j < k <= i ==> a[k] == old(a[k - 1])
      invariant forall k :: i < k < a.Length ==> a[k] == old(a[k])
      invariant forall k :: j <= k < i ==> Rank(old(a[k]), key, dir) > Rank(x, key, dir)
    {
      a[j] := a[j - 1];
      j := j - 1;
    }
    a[j] := x;
    assert a[..i + 1] == old(a[..j]) + [x] + old(a[j..i]);
  }

  /** One pass of the insertion sort, on the array contents before and after
      it, extends the sorted prefix by one element. */
  lemma SortStep<T>(input: seq<T>, before: seq<T>, after: seq<T>, i: nat, j: nat, key: T -> int, dir: Direction)
    requires i < |input| == |before| == |after|
    requires before[..i] == StableSort(input[..i], key, dir) && before[i..] == input[i..]
    requires j <= i
    requires after[..i + 1] == before[..j] + [before[i]] + before[j..i]
    requires after[i + 1..] == before[i + 1..]
    requires forall k :: j <= k < i ==> Rank(before[k], key, dir) > Rank(before[i], key, dir)
    requires j == 0 || Rank(before[j - 1], key, dir) <= Rank(before[i], key, dir)
    ensures after[..i + 1] == StableSort(input[..i + 1], key, dir)
    ensures after[i + 1..] == input[i + 1..]
  {
    var prefix := before[..i];
    assert before[i] == input[i];
    InsertLandsAt(prefix, before[i], j, key, dir);
    assert prefix[..j] == before[..j] && prefix[j..] == before[j..i];
    StableSortExtend(input, i, key, dir);
    assert before[i + 1..] == input[i + 1..];
  }

  /** `Array.prototype.sort` with the comparator of `dir`, in place, as a
      stable insertion sort: each element in turn moves left past the
      elements that rank strictly above it. */
  method InsertionSort<T>(a: array<T>, key: T -> int, dir: Direction)
    modifies a
    ensures a[..] == StableSort(old(a[..]), key, dir)
  {
    ghost var input := a[..];
    var i := 0;
    while i < a.Length
      invariant 0 <= i <= a.Length
      invariant a[..i] == StableSort(input[..i], key, dir)
      invariant a[i..] == input[i..]
    {
      ghost var before := a[..];
      var j := InsertAt(a, i, key, dir);
      SortStep(input, before, a[..], i, j, key, dir);
      i := i + 1;
    }
    assert a[..] == a[..a.Length] && input == input[..a.Length];
  }

  // ---------------------------------------------------------------------------
  // The calorie order
  // ---------------------------------------------------------------------------

  /** Calorie keys never decrease along `s`. */
  predicate NonDecreasingCalories(s: seq<Recipe>) {
    forall i, j :: 0 <= i < j < |s| ==> CalorieKey(s[i]) <= CalorieKey(s[j])
  }

  /** Calorie keys never increase along `s`. */
  predicate NonIncreasingCalories(s: seq<Recipe>) {
    forall i, j :: 0 <= i < j < |s| ==> CalorieKey(s[i]) >= CalorieKey(s[j])
  }

  /** Sorted by calories in the order of `dir` is non-decreasing calories for
      "calories-low" and non-increasing calories for "calories-high". */
  lemma SortedByCaloriesMeans(s: seq<Recipe>, dir: Direction)
    ensures dir == LowToHigh ==> (SortedBy(s, CalorieKey, dir) <==> NonDecreasingCalories(s))
    ensures dir == HighToLow ==> (SortedBy(s, CalorieKey, dir) <==> NonIncreasingCalories(s))
  {
  }

  // ---------------------------------------------------------------------------
  // sortRecipes
  // ---------------------------------------------------------------------------

  /** What `sortRecipes(recipes, sortType)` returns: the recipes sorted by
      calories, ascending for "calories-low" and descending for
      "calories-high", ties in input order; for every other sort type, the
      recipes as they are. In all cases a permutation of the input. */
  function Arranged(recipes: seq<Recipe>, sortType: string): (r: seq<Recipe>)
    ensures multiset(r) == multiset(recipes)
    ensures SameTies(r, recipes, CalorieKey)
    ensures sortType == "calories-low" ==> NonDecreasingCalories(r)
    ensures sortType == "calories-high" ==> NonIncreasingCalories(r)
    ensures sortType != "calories-low" && sortType != "calories-high" ==> r == recipes
  {
    if sortType == "calories-low" then
      StableSortPermutes(recipes, CalorieKey, LowToHigh);
      StableSortSorted(recipes, CalorieKey, LowToHigh);
      StableSortKeepsTies(recipes, CalorieKey, LowToHigh);
      SortedByCaloriesMeans(StableSort(recipes, CalorieKey, LowToHigh), LowToHigh);
      StableSort(recipes, CalorieKey, LowToHigh)
    else if sortType == "calories-high" then
      StableSortPermutes(recipes, CalorieKey, HighToLow);
      StableSortSorted(recipes, CalorieKey, HighToLow);
      StableSortKeepsTies(recipes, CalorieKey, HighToLow);
      SortedByCaloriesMeans(StableSort(recipes, CalorieKey, HighToLow), HighToLow);
      StableSort(recipes, CalorieKey, HighToLow)
    else
      recipes
  }

  /** `sortRecipes`: `[...recipes]` copies the list into a fresh array, which
      is sorted in place for the two calorie sort types. The input array is
      left untouched. */
  method SortRecipes(recipes: array<Recipe>, sortType: string) returns (sorted: array<Recipe>)
    ensures fresh(sorted)
    ensures recipes[..] == old(recipes[..])
    ensures sorted[..] == Arranged(recipes[..], sortType)
  {
    sorted := new Recipe[recipes.Length](i reads recipes requires 0 <= i < recipes.Length => recipes[i]);
    assert sorted[..] == recipes[..];
    if sortType == "calories-low" {
      InsertionSort(sorted, CalorieKey, LowToHigh);
    } else if sortType == "calories-high" {
      InsertionSort(sorted, CalorieKey, HighToLow);
    }
  }

  // ---------------------------------------------------------------------------
  // Rendering
  // ---------------------------------------------------------------------------

  /** The recipes the results page shows: the sorted search results when the
      search found any, otherwise the alternative recipes, unsorted. */
  function ShownRecipes(searched: seq<Recipe>, alternatives: seq<Recipe>, sortType: string): (shown: seq<Recipe>)
    ensures searched == [] ==> shown == alternatives
    ensures searched != [] ==> multiset(shown) == multiset(searched)
    ensures searched != [] && sortType == "calories-low" ==> NonDecreasingCalories(shown)
    ensures searched != [] && sortType == "calories-high" ==> NonIncreasingCalories(shown)
    ensures searched != [] ==> SameTies(shown, searched, CalorieKey)
    ensures searched != [] && sortType != "calories-low" && sortType != "calories-high" ==> shown == searched
  {
    if |searched| == 0 then alternatives else Arranged(searched, sortType)
  }

  /** With non-negative calorie keys, a recipe without nutrient data (key 0)
      comes after nothing but key-0 recipes under "calories-low". */
  lemma MissingNutritionSortsFirst(recipes: seq<Recipe>, k: nat)
    requires forall i :: 0 <= i < |recipes| ==> CalorieKey(recipes[i]) >= 0
    requires k < |recipes| && NutrientList(Arranged(recipes, "calories-low")[k]).None?
    ensures forall i :: 0 <= i < k ==> CalorieKey(Arranged(recipes, "calories-low")[i]) == 0
  {
    var r := Arranged(recipes, "calories-low");
    forall i | 0 <= i < k ensures CalorieKey(r[i]) == 0 {
      assert r[i] in multiset(recipes);
    }
  }

  /** With non-negative calorie keys, a recipe without nutrient data (key 0)
      comes before nothing but key-0 recipes under "calories-high". */
  lemma MissingNutritionSortsLast(recipes: seq<Recipe>, k: nat)
    requires forall i :: 0 <= i < |recipes| ==> CalorieKey(recipes[i]) >= 0
    requires k < |recipes| && NutrientList(Arranged(recipes, "calories-high")[k]).None?
    ensures forall i :: k < i < |recipes| ==> CalorieKey(Arranged(recipes, "calories-high")[i]) == 0
  {
    var r := Arranged(recipes, "calories-high");
    forall i | k < i < |recipes| ensures CalorieKey(r[i]) == 0 {
      assert r[i] in multiset(recipes);
    }
  }
}

/** The recipe page: resolving the route id to a recipe (TheMealDB first for
    numeric-looking ids, then the custom recipe store), listing its
    ingredients, toggling it as a favourite and splitting its instructions
    into paragraphs. */
module RecipeDetails {
  import opened Text
  import opened Records
  import opened Transcoder
  import opened Queries
  import opened DocumentStore

  // ---------------------------------------------------------------------
  // Resolving the id

  /** TheMealDB supplies the recipe: the id looks numeric (`!isNaN(id)`) and
      the lookup answered with a non-empty `meals` array. */
  predicate ExternalHit(id: string, external: ApiReply) {
    LooksNumeric(id) && external.Replied? && external.meals.Some? && |external.meals.value| > 0
  }

  /** The recipe `fetchData` finds: TheMealDB's first meal for a
      numeric-looking id it knows, otherwise whatever the custom recipe store
      resolves the id to; nothing only when both came up empty. */
  function Resolve(id: string, external: ApiReply, local: Fetch): (found: Option<Record>)
    ensures ExternalHit(id, external) ==> found == Some(external.meals.value[0])
    ensures !ExternalHit(id, external) ==> found == GetCustomRecipe(local, id)
    ensures !LooksNumeric(id) ==> found == GetCustomRecipe(local, id)
    ensures found.None? <==> !ExternalHit(id, external) && GetCustomRecipe(local, id).None?
  {
    if ExternalHit(id, external) then Some(external.meals.value[0]) else GetCustomRecipe(local, id)
  }

  /** `fetchData`, run by the effect on `[id, currentUser]`: TheMealDB is
      asked only for a numeric-looking id, and its failures are swallowed;
      without an answer there the custom recipe store is asked. A found
      recipe replaces the page's recipe; when nothing is found the page keeps
      the recipe it showed before (`prevRecipe`, `None` on a fresh page).
      With a signed-in user the favourite flag becomes the stored status of
      the found recipe's `idMeal`; without a user, without a recipe, or when
      the status read throws, the flag keeps its previous value. */
  method FetchData(store: Store, id: string, external: ApiReply, local: Fetch, user: Option<string>,
                   prevRecipe: Option<Record>, prevFavorite: bool)
    returns (recipe: Option<Record>, isFavorite: bool)
    ensures Resolve(id, external, local).Some? ==> recipe == Resolve(id, external, local)
    ensures Resolve(id, external, local).None? ==> recipe == prevRecipe
    ensures isFavorite != prevFavorite ==>
              user.Some? && Resolve(id, external, local).Some? && Get(recipe.value, IdMeal).Str?
              && store.CheckFavoriteStatus(user.value, Get(recipe.value, IdMeal).s) == Some(isFavorite)
    ensures (user.Some? && Resolve(id, external, local).Some? && Get(recipe.value, IdMeal).Str?
             && store.CheckFavoriteStatus(user.value, Get(recipe.value, IdMeal).s).Some?)
            ==> Some(isFavorite) == store.CheckFavoriteStatus(user.value, Get(recipe.value, IdMeal).s)
  {
    var foundRecipe: Option<Record> := None;
    if LooksNumeric(id) {
      match external
      case Unreachable =>
      case Replied(meals) =>
        if meals.Some? && |meals.value| > 0 {
          foundRecipe := Some(meals.value[0]);
        }
    }
    if foundRecipe.None? {
      foundRecipe := GetCustomRecipe(local, id);
    }
    recipe := prevRecipe;
    isFavorite := prevFavorite;
    if foundRecipe.Some? {
      recipe := foundRecipe;
      if user.Some? {
        var recipeId := Get(foundRecipe.value, IdMeal);
        if recipeId.Str? {
          var status := store.CheckFavoriteStatus(user.value, recipeId.s);
          if status.Some? {
            isFavorite := status.value;
          }
        }
      }
    }
  }

  /** A TheMealDB id (decimal digits) is looked up there; a custom id that
      starts with a letter (other than the `I` of `Infinity`) goes straight
      to the store. */
  lemma ExternalLookupOnlyForNumericIds(id: string, external: ApiReply)
    ensures (AllDigits(id, 10) && external.Replied? && external.meals.Some? && |external.meals.value| > 0)
              ==> ExternalHit(id, external)
    ensures id != [] && id[0] != 'I' && ('a' <= id[0] <= 'z' || 'A' <= id[0] <= 'Z') ==> !ExternalHit(id, external)
  {
    if AllDigits(id, 10) {
      DigitStringLooksNumeric(id);
    }
    if id != [] && id[0] != 'I' && ('a' <= id[0] <= 'z' || 'A' <= id[0] <= 'Z') {
      LeadingLetterIsNotNumeric(id);
    }
  }

  // ---------------------------------------------------------------------
  // Ingredients as displayed

  /** `measure || ""`. */
  function DisplayMeasure(measure: Value): Value {
    if Truthy(measure) then measure else Str("")
  }

  function Displayed(rows: seq<Row>): (r: seq<Row>)
    ensures |r| == |rows|
    ensures forall k :: 0 <= k < |rows| ==> r[k] == Row(rows[k].name, DisplayMeasure(rows[k].measure))
  {
    seq(|rows|, k requires 0 <= k < |rows| => Row(rows[k].name, DisplayMeasure(rows[k].measure)))
  }

  /** `getIngredients(meal)`: nothing for a missing recipe; otherwise slots
      1..20 read in order, each slot with a non-blank name pushed with its
      measure, a falsy measure shown as `""`. */
  method GetIngredients(meal: Option<Record>) returns (ingredients: seq<Row>)
    ensures meal.None? ==> ingredients == []
    ensures meal.Some? ==> ingredients == Displayed(Decode(meal.value))
  {
    ingredients := [];
    if meal.None? {
      return;
    }
    var data := meal.value;
    var i := 1;
    while i <= SlotCount
      invariant 1 <= i <= SlotCount + 1
      invariant ingredients == Displayed(DecodeUpTo(data, i - 1))
    {
      var ingredient := Get(data, IngredientSlot(i));
      var measure := Get(data, MeasureSlot(i));
      if ingredient.Str? && !IsBlank(ingredient.s) {
        ingredients := ingredients + [Row(ingredient.s, DisplayMeasure(measure))];
      }
      assert DecodeUpTo(data, i) == DecodeUpTo(data, i - 1) + SlotRow(data, i);
      i := i + 1;
    }
  }

  /** The displayed list: at most 20 rows, one per slot with a non-blank
      name, in ascending slot order, each measure the stored one when truthy
      and `""` otherwise. */
  lemma DisplayedIngredients(meal: Record)
    ensures |Displayed(Decode(meal))| == |QualifyingSlots(meal, SlotCount)| <= SlotCount
    ensures forall k :: 0 <= k < |Displayed(Decode(meal))| ==>
              var slot := QualifyingSlots(meal, SlotCount)[k];
              1 <= slot <= SlotCount
              && Get(meal, IngredientSlot(slot)) == Str(Displayed(Decode(meal))[k].name)
              && !IsBlank(Displayed(Decode(meal))[k].name)
              && Displayed(Decode(meal))[k].measure == DisplayMeasure(Get(meal, MeasureSlot(slot)))
    ensures forall k :: 0 <= k < |Displayed(Decode(meal))| ==>
              Truthy(Displayed(Decode(meal))[k].measure) || Displayed(Decode(meal))[k].measure == Str("")
  {
    DecodeReadsQualifyingSlots(meal);
    DecodeUpToReadsQualifyingSlots(meal, SlotCount);
  }

  // ---------------------------------------------------------------------
  // Favourite toggle

  /** `recipe.idMeal` names a favourite document. */
  predicate HasDocId(recipe: Record) {
    Get(recipe, IdMeal).Str? && ValidDocId(Get(recipe, IdMeal).s)
  }

  /** `handleToggleFavorite`: without a user nothing happens; otherwise the
      favourite is removed when marked, added when not, and the flag flips
      only when that write succeeded; only the user's favourites change. */
  method ToggleFavorite(store: Store, user: Option<string>, recipe: Record, isFavorite: bool)
    returns (nowFavorite: bool)
    requires store.Valid()
    modifies store
    ensures store.Valid()
    ensures user.None? ==> nowFavorite == isFavorite && store.favorites == old(store.favorites)
    ensures nowFavorite != isFavorite <==>
              user.Some? && HasDocId(recipe) && (isFavorite || Storable(FavoriteEntry(recipe)))
    ensures nowFavorite != isFavorite ==> store.CheckFavoriteStatus(user.value, Get(recipe, IdMeal).s) == Some(nowFavorite)
    ensures nowFavorite == isFavorite ==> store.favorites == old(store.favorites)
    ensures nowFavorite != isFavorite && isFavorite ==>
              store.FavoritesOf(user.value) == old(store.FavoritesOf(user.value)) - {Get(recipe, IdMeal).s}
    ensures nowFavorite != isFavorite && !isFavorite ==>
              store.FavoritesOf(user.value) == old(store.FavoritesOf(user.value))[Get(recipe, IdMeal).s := FavoriteEntry(recipe)]
    ensures forall uid :: user != Some(uid) ==> store.FavoritesOf(uid) == old(store.FavoritesOf(uid))
    ensures store.customRecipes == old(store.customRecipes) && store.comments == old(store.comments)
    ensures store.users == old(store.users) && store.mealPlans == old(store.mealPlans)
  {
    nowFavorite := isFavorite;
    if user.None? {
      return;
    }
    var ok;
    if isFavorite {
      var recipeId := Get(recipe, IdMeal);
      if !(recipeId.Str? && ValidDocId(recipeId.s)) {
        return;
      }
      ok := store.RemoveFromFavorites(user.value, recipeId.s);
    } else {
      ok := store.AddToFavorites(user.value, recipe);
    }
    if ok {
      nowFavorite := !isFavorite;
    }
  }

  // ---------------------------------------------------------------------
  // Instructions

  /** The instruction paragraphs: the `split("\n")` pieces whose trim is not
      empty, in order; none when the instructions are empty or missing, and
      `None` where `split` throws on a truthy non-string. */
  function Paragraphs(instructions: Value): (ps: Option<seq<string>>)
    ensures ps.None? <==> Truthy(instructions) && !instructions.Str?
    ensures ps.Some? && !Truthy(instructions) ==> ps.value == []
    ensures ps.Some? && instructions.Str? ==> ps.value == Filter(SplitLines(instructions.s), (p: string) => !IsBlank(p))
    ensures ps.Some? && instructions.Str? ==> IsSubsequence(ps.value, SplitLines(instructions.s))
    ensures ps.Some? ==> forall p :: p in ps.value ==> !IsBlank(p) && '\n' !in p
    ensures ps.Some? && instructions.Str? ==>
              forall k :: 0 <= k < |SplitLines(instructions.s)| && !IsBlank(SplitLines(instructions.s)[k])
                ==> SplitLines(instructions.s)[k] in ps.value
  {
    if !Truthy(instructions) then Some([])
    else if !instructions.Str? then None
    else
      var lines := SplitLines(instructions.s);
      var kept := Filter(lines, (line: string) => Trim(line) != []);
      SplitLinesInverse(instructions.s);
      forall line | line in lines
        ensures (Trim(line) != []) == !IsBlank(line)
      {
        TrimIsEmptyIffBlank(line);
      }
      FilterAgrees(lines, (line: string) => Trim(line) != [], (p: string) => !IsBlank(p));
      Some(kept)
  }
}

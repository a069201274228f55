/** The search page: merging the custom recipes that match the query with
    TheMealDB's matches, accepting a new search term, and the page title. */
module Search {
  import opened Text
  import opened Records
  import opened Queries

  /** `apiRes.meals || []`. */
  function MealsOrEmpty(meals: Option<seq<Record>>): (r: seq<Record>)
    ensures meals.None? ==> r == []
    ensures meals.Some? ==> r == meals.value
  {
    if meals.Some? then meals.value else []
  }

  /** The results shown after the effect for `query` ran: with no query
      nothing is looked up and the results stay as they were; if TheMealDB
      fails (the combined lookup rejects) they stay as they were too;
      otherwise every custom match comes first, in its order, followed by
      every TheMealDB match, in its order, with nothing merged away. */
  function FetchRecipes(query: string, previous: seq<Record>, local: Fetch, api: ApiReply): (results: seq<Record>)
    ensures query == "" || api.Unreachable? ==> results == previous
    ensures query != "" && api.Replied? ==>
              |results| == |SearchCustomRecipes(local, query)| + |MealsOrEmpty(api.meals)|
              && results[..|SearchCustomRecipes(local, query)|] == SearchCustomRecipes(local, query)
              && results[|SearchCustomRecipes(local, query)|..] == MealsOrEmpty(api.meals)
  {
    if query == "" then previous
    else match api
      case Unreachable => previous
      case Replied(meals) =>
        var customRecipes := SearchCustomRecipes(local, query);
        var apiMeals := MealsOrEmpty(meals);
        customRecipes + apiMeals
  }

  /** A `null` `meals` contributes nothing: the results are the custom
      matches alone. Every custom match is listed before every TheMealDB
      match, even when the same recipe appears in both. */
  lemma LocalResultsComeFirst(query: string, previous: seq<Record>, local: Fetch, api: ApiReply)
    requires query != "" && api.Replied?
    ensures api.meals.None? ==> FetchRecipes(query, previous, local, api) == SearchCustomRecipes(local, query)
    ensures forall i, j :: 0 <= i < |SearchCustomRecipes(local, query)| <= j < |FetchRecipes(query, previous, local, api)|
              ==> FetchRecipes(query, previous, local, api)[i] == SearchCustomRecipes(local, query)[i]
                  && FetchRecipes(query, previous, local, api)[j] == MealsOrEmpty(api.meals)[j - |SearchCustomRecipes(local, query)|]
  {
    var custom := SearchCustomRecipes(local, query);
    var results := FetchRecipes(query, previous, local, api);
    assert results == custom + MealsOrEmpty(api.meals);
  }

  /** `handleSearch`: the search term becomes the query, as typed (not
      trimmed), only when it is not blank; otherwise the query stays. */
  function HandleSearch(searchTerm: string, query: string): (newQuery: string)
    ensures IsBlank(searchTerm) ==> newQuery == query
    ensures !IsBlank(searchTerm) ==> newQuery == searchTerm
  {
    TrimIsEmptyIffBlank(searchTerm);
    if Trim(searchTerm) != [] then searchTerm else query
  }

  /** The categories whose searches are titled as a category. */
  const StandardCategories: seq<string> := ["Beef", "Chicken", "Dessert", "Pasta", "Seafood", "Vegetarian", "Breakfast"]

  /** `getPageTitle()`: "Loading..." while loading; `<q> Recipes` when the
      query is exactly one of the standard categories; `Results for "<q>"`
      otherwise. */
  function PageTitle(loading: bool, query: string): (title: string)
    ensures loading ==> title == "Loading..."
    ensures !loading && query in StandardCategories ==> title == query + " Recipes"
    ensures !loading && query !in StandardCategories ==> title == "Results for \"" + query + "\""
  {
    if loading then "Loading..."
    else if query in StandardCategories then query + " Recipes"
    else "Results for \"" + query + "\""
  }

  /** The category match is case-sensitive: every standard category typed
      in lower case ("beef") is titled as an ordinary search, while the
      category as listed ("Beef") gets the category title. */
  lemma CategoryTitleIsCaseSensitive()
    ensures forall q :: q in StandardCategories ==>
              PageTitle(false, q) == q + " Recipes"
              && Lower(q) != q && Lower(q) !in StandardCategories
              && PageTitle(false, Lower(q)) == "Results for \"" + Lower(q) + "\""
  {
    assert forall c :: c in StandardCategories ==> c != [] && 'A' <= c[0] <= 'Z';
    forall q | q in StandardCategories
      ensures Lower(q) != q && Lower(q) !in StandardCategories
    {
      assert Lower(q)[0] == LowerChar(q[0]);
      assert 'a' <= Lower(q)[0] <= 'z';
    }
  }
}

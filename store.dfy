/** The writes of the document store (`src/libs/db.js`) over an abstract
    Firestore: the `custom_recipes` and `comments` collections, user profiles
    `users/{uid}`, and each user's `favorites` and `meal_plan` sub-collections.
    Every write states its whole new state: what it changes and that nothing
    else changes. */
module DocumentStore {
  import opened Records
  import opened Queries

  /** A meal-plan day document `users/{uid}/meal_plan/{date}`: slot name
      (`breakfast`, `lunch`, ...) to the planned recipe's summary. */
  type DayPlan = map<string, Record>

  /** The favourite document: exactly `idMeal`, `strMeal`, `strMealThumb`,
      `strCategory` and `strArea` copied from the recipe. */
  function FavoriteEntry(recipe: Record): (e: Record)
    ensures e.Keys == {IdMeal, StrMeal, StrMealThumb, StrCategory, StrArea}
    ensures forall k :: k in e ==> e[k] == Get(recipe, k)
  {
    map[IdMeal := Get(recipe, IdMeal), StrMeal := Get(recipe, StrMeal), StrMealThumb := Get(recipe, StrMealThumb),
        StrCategory := Get(recipe, StrCategory), StrArea := Get(recipe, StrArea)]
  }

  /** The meal-plan slot value: exactly `idMeal`, `strMeal` and `strMealThumb`. */
  function PlanEntry(recipe: Record): (e: Record)
    ensures e.Keys == {IdMeal, StrMeal, StrMealThumb}
    ensures forall k :: k in e ==> e[k] == Get(recipe, k)
  {
    map[IdMeal := Get(recipe, IdMeal), StrMeal := Get(recipe, StrMeal), StrMealThumb := Get(recipe, StrMealThumb)]
  }

  /** The keys of some documents. */
  function KeysOf(docs: seq<Doc>): set<string> {
    set d | d in docs :: d.key
  }

  /** The documents whose key is not in `keys`, in order. */
  function WithoutKeys(docs: seq<Doc>, keys: set<string>): seq<Doc> {
    Filter(docs, (d: Doc) => d.key !in keys)
  }

  /** The custom recipes not owned by `uid`, in order. */
  function NotOwnedBy(docs: seq<Doc>, uid: string): seq<Doc> {
    Filter(docs, (d: Doc) => Get(d.data, UserId) != Str(uid))
  }

  /** `updateDoc(ref, patch)` on the document keyed `key`: the named fields
      replaced or added, the others kept. */
  function PatchDoc(docs: seq<Doc>, key: string, patch: Record): (r: seq<Doc>)
    ensures |r| == |docs|
    ensures forall i :: 0 <= i < |docs| ==> r[i].key == docs[i].key
    ensures forall i :: 0 <= i < |docs| ==> r[i].data == if docs[i].key == key then docs[i].data + patch else docs[i].data
  {
    seq(|docs|, i requires 0 <= i < |docs| => if docs[i].key == key then Doc(key, docs[i].data + patch) else docs[i])
  }

  /** Two filters that agree on every element give the same result. */
  lemma {:induction false} FilterAgrees<T>(s: seq<T>, p: T -> bool, q: T -> bool)
    requires forall x :: x in s ==> p(x) == q(x)
    ensures Filter(s, p) == Filter(s, q)
    decreases |s|
  {
    if s != [] {
      assert forall x :: x in s[1..] ==> x in s;
      FilterAgrees(s[1..], p, q);
    }
  }

  /** Keeping some documents of a collection keeps their keys distinct. */
  lemma {:induction false} SubsequenceKeepsKeysUnique(a: seq<Doc>, b: seq<Doc>)
    requires IsSubsequence(a, b) && UniqueKeys(b)
    ensures UniqueKeys(a)
    decreases |b|
  {
    if a != [] {
      if a[0] == b[0] && IsSubsequence(a[1..], b[1..]) {
        SubsequenceKeepsKeysUnique(a[1..], b[1..]);
        SubsequenceMembers(a[1..], b[1..]);
        forall j | 0 < j < |a|
          ensures a[0].key != a[j].key
        {
          assert a[j] in a[1..];
          var k :| 0 <= k < |b[1..]| && b[1..][k] == a[j];
          assert b[k + 1] == a[j];
        }
      } else {
        SubsequenceKeepsKeysUnique(a, b[1..]);
      }
    }
  }

  /** Deleting the keys of a user's recipes, as the batch does, leaves exactly
      the recipes not owned by the user. */
  lemma BatchRemovesExactlyOwned(docs: seq<Doc>, uid: string)
    requires UniqueKeys(docs)
    ensures WithoutKeys(docs, KeysOf(OwnedBy(docs, uid))) == NotOwnedBy(docs, uid)
  {
    var owned := OwnedBy(docs, uid);
    forall d | d in docs
      ensures (d.key !in KeysOf(owned)) == (Get(d.data, UserId) != Str(uid))
    {
      if d.key in KeysOf(owned) {
        var e :| e in owned && e.key == d.key;
        var i :| 0 <= i < |docs| && docs[i] == d;
        var j :| 0 <= j < |docs| && docs[j] == e;
        assert i == j;
      }
    }
    FilterAgrees(docs, (d: Doc) => d.key !in KeysOf(owned), (d: Doc) => Get(d.data, UserId) != Str(uid));
  }

  /** The batch of `deleteUserData`: one delete per queried document, added
      in order. */
  /** A comment filed under `recipeId` is listed, once more than before, for
      every id with the same string form. */
  lemma ListedUnderEveryAlias(docs: seq<Doc>, d: Doc, recipeId: Value)
    requires Get(d.data, RecipeId) == Str(Stringify(recipeId))
    ensures forall other :: Stringify(other) == Stringify(recipeId) ==>
              WithCommentId(d) in GetComments(Fetched(docs + [d]), other).value
    ensures forall other :: Stringify(other) == Stringify(recipeId) ==>
              |GetComments(Fetched(docs + [d]), other).value| == |GetComments(Fetched(docs), other).value| + 1
  {
    forall other | Stringify(other) == Stringify(recipeId)
      ensures WithCommentId(d) in GetComments(Fetched(docs + [d]), other).value
      ensures |GetComments(Fetched(docs + [d]), other).value| == |GetComments(Fetched(docs), other).value| + 1
    {
      CommentCountAfterAppend(docs, d, other);
    }
  }

  method BatchKeys(owned: seq<Doc>) returns (batch: set<string>)
    ensures batch == KeysOf(owned)
  {
    batch := {};
    var i := 0;
    while i < |owned|
      invariant 0 <= i <= |owned|
      invariant batch == KeysOf(owned[..i])
    {
      assert owned[..i + 1] == owned[..i] + [owned[i]];
      batch := batch + {owned[i].key};
      i := i + 1;
    }
    assert owned[..|owned|] == owned;
  }

  /** After the user's recipes are deleted, none is left to list. */
  lemma NothingLeftOwned(docs: seq<Doc>, uid: string)
    ensures forall d :: d in NotOwnedBy(docs, uid) ==> Get(d.data, UserId) != Str(uid)
    ensures GetMyRecipes(Fetched(NotOwnedBy(docs, uid)), uid) == Some([])
  {
    var rest := NotOwnedBy(docs, uid);
    var left := OwnedBy(rest, uid);
    assert forall d :: d !in left;
  }

  class Store {
    /** `custom_recipes`, in the order the store lists them. */
    var customRecipes: seq<Doc>
    /** `comments`, in the order the store lists them. */
    var comments: seq<Doc>
    /** `users/{uid}` profile documents. */
    var users: map<string, Record>
    /** `users/{uid}/favorites/{recipeId}`. */
    var favorites: map<string, map<string, Record>>
    /** `users/{uid}/meal_plan/{date}`. */
    var mealPlans: map<string, map<string, DayPlan>>

    /** Keys are distinct within a collection, and a favourite is filed under
        its own `idMeal`. */
    predicate Valid()
      reads this
    {
      UniqueKeys(customRecipes) && UniqueKeys(comments)
      && forall uid, id :: uid in favorites && id in favorites[uid] ==> Get(favorites[uid][id], IdMeal) == Str(id)
    }

    constructor ()
      ensures Valid()
      ensures customRecipes == [] && comments == [] && users == map[] && favorites == map[] && mealPlans == map[]
    {
      customRecipes := [];
      comments := [];
      users := map[];
      favorites := map[];
      mealPlans := map[];
    }

    function FavoritesOf(uid: string): map<string, Record>
      reads this
    {
      if uid in favorites then favorites[uid] else map[]
    }

    function PlanOf(uid: string): map<string, DayPlan>
      reads this
    {
      if uid in mealPlans then mealPlans[uid] else map[]
    }

    function DayOf(uid: string, date: string): DayPlan
      reads this
    {
      if date in PlanOf(uid) then PlanOf(uid)[date] else map[]
    }

    // -------------------------------------------------------------------
    // Favourites

    /** `checkFavoriteStatus(uid, recipeId)`: whether the favourite document
        exists; `None` where `doc()` throws on an id that names no document. */
    function CheckFavoriteStatus(uid: string, recipeId: string): (status: Option<bool>)
      reads this
      ensures status.Some? <==> ValidDocId(recipeId)
      ensures status == Some(true) <==> ValidDocId(recipeId) && recipeId in FavoritesOf(uid)
    {
      if ValidDocId(recipeId) then Some(recipeId in FavoritesOf(uid)) else None
    }

    /** `getFavorites(uid)`: the stored favourite entries (their listing order
        is not modelled); each carries the id it is filed under. */
    function GetFavorites(uid: string): (entries: set<Record>)
      reads this
      requires Valid()
      ensures forall e :: e in entries <==> exists id :: id in FavoritesOf(uid) && FavoritesOf(uid)[id] == e
      ensures forall e :: e in entries ==> Get(e, IdMeal).Str? && Get(e, IdMeal).s in FavoritesOf(uid)
    {
      assert forall id :: id in FavoritesOf(uid) ==> Get(FavoritesOf(uid)[id], IdMeal) == Str(id);
      set id | id in FavoritesOf(uid) :: FavoritesOf(uid)[id]
    }

    /** `addToFavorites(uid, recipe)`: the five summary fields stored under
        `recipe.idMeal`, replacing any earlier entry. Refused when `idMeal` is
        not a document id (`doc()` throws) or a summary field is `undefined`
        (Firestore rejects the write). */
    method AddToFavorites(uid: string, recipe: Record) returns (ok: bool)
      requires Valid()
      modifies this
      ensures Valid()
      ensures ok <==> Get(recipe, IdMeal).Str? && ValidDocId(Get(recipe, IdMeal).s) && Storable(FavoriteEntry(recipe))
      ensures ok ==> favorites == old(favorites)[uid := old(FavoritesOf(uid))[Get(recipe, IdMeal).s := FavoriteEntry(recipe)]]
      ensures !ok ==> favorites == old(favorites)
      ensures ok ==> CheckFavoriteStatus(uid, Get(recipe, IdMeal).s) == Some(true)
      ensures ok ==> FavoriteEntry(recipe) in GetFavorites(uid)
      ensures customRecipes == old(customRecipes) && comments == old(comments)
      ensures users == old(users) && mealPlans == old(mealPlans)
    {
      var id := Get(recipe, IdMeal);
      var entry := FavoriteEntry(recipe);
      if !(id.Str? && ValidDocId(id.s)) || !Storable(entry) {
        return false;
      }
      favorites := favorites[uid := FavoritesOf(uid)[id.s := entry]];
      assert FavoritesOf(uid)[id.s] == entry;
      ok := true;
    }

    /** `removeFromFavorites(uid, recipeId)`: that one entry deleted (deleting
        an absent document succeeds); refused when the id names no document. */
    method RemoveFromFavorites(uid: string, recipeId: string) returns (ok: bool)
      requires Valid()
      modifies this
      ensures Valid()
      ensures ok <==> ValidDocId(recipeId)
      ensures ok ==> favorites == old(favorites)[uid := old(FavoritesOf(uid)) - {recipeId}]
      ensures !ok ==> favorites == old(favorites)
      ensures ok ==> CheckFavoriteStatus(uid, recipeId) == Some(false)
      ensures customRecipes == old(customRecipes) && comments == old(comments)
      ensures users == old(users) && mealPlans == old(mealPlans)
    {
      if !ValidDocId(recipeId) {
        return false;
      }
      favorites := favorites[uid := FavoritesOf(uid) - {recipeId}];
      ok := true;
    }

    // -------------------------------------------------------------------
    // Custom recipes

    /** `createRecipe(data)`: a new document under a fresh key holding `data`
        with `createdAt` set to the current time; `None` when Firestore rejects
        an `undefined` field. */
    method CreateRecipe(recipeData: Record, freshKey: string, now: string) returns (key: Option<string>)
      requires Valid()
      requires ValidDocId(freshKey) && forall i :: 0 <= i < |customRecipes| ==> customRecipes[i].key != freshKey
      modifies this
      ensures Valid()
      ensures key.Some? <==> Storable(recipeData[CreatedAt := Str(now)])
      ensures key.Some? ==> key.value == freshKey
                            && customRecipes == old(customRecipes) + [Doc(freshKey, recipeData[CreatedAt := Str(now)])]
      ensures key.None? ==> customRecipes == old(customRecipes)
      ensures key.Some? ==> GetCustomRecipe(Fetched(customRecipes), freshKey)
                              == Some(WithKeyAsId(Doc(freshKey, recipeData[CreatedAt := Str(now)])))
      ensures comments == old(comments) && users == old(users)
      ensures favorites == old(favorites) && mealPlans == old(mealPlans)
    {
      var data := recipeData[CreatedAt := Str(now)];
      if !Storable(data) {
        return None;
      }
      customRecipes := customRecipes + [Doc(freshKey, data)];
      assert customRecipes[|customRecipes| - 1].key == freshKey;
      key := Some(freshKey);
    }

    /** `updateRecipe(recipeId, patch)`: the named fields of that document
        replaced or added, the rest kept. Refused (`updateDoc` rejects) when
        the document does not exist, the id names no document, or a field is
        `undefined`. */
    method UpdateRecipe(recipeId: string, patch: Record) returns (ok: bool)
      requires Valid()
      modifies this
      ensures Valid()
      ensures ok <==> ValidDocId(recipeId) && recipeId in KeysOf(old(customRecipes)) && Storable(patch)
      ensures ok ==> customRecipes == PatchDoc(old(customRecipes), recipeId, patch)
      ensures !ok ==> customRecipes == old(customRecipes)
      ensures comments == old(comments) && users == old(users)
      ensures favorites == old(favorites) && mealPlans == old(mealPlans)
    {
      if !ValidDocId(recipeId) || recipeId !in KeysOf(customRecipes) || !Storable(patch) {
        return false;
      }
      customRecipes := PatchDoc(customRecipes, recipeId, patch);
      ok := true;
    }

    /** `deleteRecipe(recipeId)`: that document removed, if present. */
    method DeleteRecipe(recipeId: string) returns (ok: bool)
      requires Valid()
      modifies this
      ensures Valid()
      ensures ok <==> ValidDocId(recipeId)
      ensures ok ==> customRecipes == WithoutKeys(old(customRecipes), {recipeId})
      ensures !ok ==> customRecipes == old(customRecipes)
      ensures recipeId !in KeysOf(customRecipes) || !ok
      ensures comments == old(comments) && users == old(users)
      ensures favorites == old(favorites) && mealPlans == old(mealPlans)
    {
      if !ValidDocId(recipeId) {
        return false;
      }
      SubsequenceKeepsKeysUnique(WithoutKeys(customRecipes, {recipeId}), customRecipes);
      customRecipes := WithoutKeys(customRecipes, {recipeId});
      ok := true;
    }

    /** `deleteUserData(uid)`: one batch deleting every custom recipe whose
        `userId` is `uid`, and the profile `users/{uid}`. Comments, favourites
        and meal plans of the user stay (sub-collections are not deleted with
        their parent document). */
    method DeleteUserData(uid: string)
      requires Valid()
      modifies this
      ensures Valid()
      ensures customRecipes == NotOwnedBy(old(customRecipes), uid)
      ensures forall d :: d in customRecipes ==> Get(d.data, UserId) != Str(uid)
      ensures GetMyRecipes(Fetched(customRecipes), uid) == Some([])
      ensures users == old(users) - {uid}
      ensures comments == old(comments) && favorites == old(favorites) && mealPlans == old(mealPlans)
    {
      var batch := BatchKeys(OwnedBy(customRecipes, uid));
      BatchRemovesExactlyOwned(customRecipes, uid);
      SubsequenceKeepsKeysUnique(WithoutKeys(customRecipes, batch), customRecipes);
      NothingLeftOwned(customRecipes, uid);
      customRecipes := WithoutKeys(customRecipes, batch);
      users := users - {uid};
    }

    // -------------------------------------------------------------------
    // Comments

    /** What `addComment(recipeId, commentData)` stores: the comment with
        `recipeId` as a string and `createdAt` set to the current time. */
    static function CommentData(recipeId: Value, commentData: Record, now: string): (data: Record)
      ensures Get(data, RecipeId) == Str(Stringify(recipeId)) && Get(data, CreatedAt) == Str(now)
      ensures forall k :: k != RecipeId && k != CreatedAt ==> Get(data, k) == Get(commentData, k)
    {
      commentData[RecipeId := Str(Stringify(recipeId))][CreatedAt := Str(now)]
    }

    /** `addComment(recipeId, commentData)`: a new comment under a fresh key,
        found afterwards by `getComments` for any id with the same string
        form (the number 52772 and the string "52772" alike). */
    method AddComment(recipeId: Value, commentData: Record, freshKey: string, now: string) returns (ok: bool)
      requires Valid()
      requires ValidDocId(freshKey) && forall i :: 0 <= i < |comments| ==> comments[i].key != freshKey
      modifies this
      ensures Valid()
      ensures ok <==> Storable(CommentData(recipeId, commentData, now))
      ensures ok ==> comments == old(comments) + [Doc(freshKey, CommentData(recipeId, commentData, now))]
      ensures !ok ==> comments == old(comments)
      ensures ok ==> forall other :: Stringify(other) == Stringify(recipeId) ==>
                       WithCommentId(Doc(freshKey, CommentData(recipeId, commentData, now)))
                         in GetComments(Fetched(comments), other).value
      ensures ok ==> forall other :: Stringify(other) == Stringify(recipeId) ==>
                       |GetComments(Fetched(comments), other).value| == |GetComments(Fetched(old(comments)), other).value| + 1
      ensures customRecipes == old(customRecipes) && users == old(users)
      ensures favorites == old(favorites) && mealPlans == old(mealPlans)
    {
      var data := CommentData(recipeId, commentData, now);
      if !Storable(data) {
        return false;
      }
      ghost var before := comments;
      comments := comments + [Doc(freshKey, data)];
      ListedUnderEveryAlias(before, Doc(freshKey, data), recipeId);
      ok := true;
    }

    /** `deleteComment(commentId)`: that comment removed, if present. */
    method DeleteComment(commentId: string) returns (ok: bool)
      requires Valid()
      modifies this
      ensures Valid()
      ensures ok <==> ValidDocId(commentId)
      ensures ok ==> comments == WithoutKeys(old(comments), {commentId})
      ensures !ok ==> comments == old(comments)
      ensures customRecipes == old(customRecipes) && users == old(users)
      ensures favorites == old(favorites) && mealPlans == old(mealPlans)
    {
      if !ValidDocId(commentId) {
        return false;
      }
      SubsequenceKeepsKeysUnique(WithoutKeys(comments, {commentId}), comments);
      comments := WithoutKeys(comments, {commentId});
      ok := true;
    }

    // -------------------------------------------------------------------
    // Meal plan

    /** `addToMealPlan(uid, date, slot, recipe)`: `setDoc` with `merge: true`
        of `{ [slot]: summary }` on the day document, so the summary fields are
        merged into that slot, the day's other slots and the other days are
        left as they were, and a missing day document is created. Refused when
        the date names no document, the slot is empty, or a summary field is
        `undefined`. */
    method AddToMealPlan(uid: string, date: string, slot: string, recipe: Record) returns (ok: bool)
      requires Valid()
      modifies this
      ensures Valid()
      ensures ok <==> ValidDocId(date) && slot != "" && Storable(PlanEntry(recipe))
      ensures !ok ==> mealPlans == old(mealPlans)
      ensures ok ==> mealPlans == old(mealPlans)[uid := old(PlanOf(uid))[date := old(DayOf(uid, date))[slot :=
                                   (if slot in old(DayOf(uid, date)) then old(DayOf(uid, date))[slot] else map[])
                                   + PlanEntry(recipe)]]]
      ensures ok ==> forall k :: k in PlanEntry(recipe) ==> DayOf(uid, date)[slot][k] == Get(recipe, k)
      ensures ok ==> forall s :: s != slot ==> (s in DayOf(uid, date) <==> s in old(DayOf(uid, date)))
      ensures ok ==> forall s :: s != slot && s in old(DayOf(uid, date)) ==> DayOf(uid, date)[s] == old(DayOf(uid, date))[s]
      ensures forall d :: d != date ==> DayOf(uid, d) == old(DayOf(uid, d))
      ensures customRecipes == old(customRecipes) && comments == old(comments)
      ensures users == old(users) && favorites == old(favorites)
    {
      var entry := PlanEntry(recipe);
      if !ValidDocId(date) || slot == "" || !Storable(entry) {
        return false;
      }
      var day := DayOf(uid, date);
      var current: Record := if slot in day then day[slot] else map[];
      mealPlans := mealPlans[uid := PlanOf(uid)[date := day[slot := current + entry]]];
      ok := true;
    }

    /** `removeFromMealPlan(uid, date, slot)`: `updateDoc` deleting that slot
        field only; refused when the day document does not exist (`updateDoc`
        rejects), the date names no document or the slot is empty. */
    method RemoveFromMealPlan(uid: string, date: string, slot: string) returns (ok: bool)
      requires Valid()
      modifies this
      ensures Valid()
      ensures ok <==> ValidDocId(date) && slot != "" && date in old(PlanOf(uid))
      ensures !ok ==> mealPlans == old(mealPlans)
      ensures ok ==> mealPlans == old(mealPlans)[uid := old(PlanOf(uid))[date := old(DayOf(uid, date)) - {slot}]]
      ensures ok ==> slot !in DayOf(uid, date) && date in PlanOf(uid)
      ensures ok ==> forall s :: s != slot && s in old(DayOf(uid, date)) ==> s in DayOf(uid, date) && DayOf(uid, date)[s] == old(DayOf(uid, date))[s]
      ensures forall d :: d != date ==> DayOf(uid, d) == old(DayOf(uid, d))
      ensures customRecipes == old(customRecipes) && comments == old(comments)
      ensures users == old(users) && favorites == old(favorites)
    {
      if !ValidDocId(date) || slot == "" || date !in PlanOf(uid) {
        return false;
      }
      mealPlans := mealPlans[uid := PlanOf(uid)[date := DayOf(uid, date) - {slot}]];
      ok := true;
    }

    /** `getMealPlan(uid)`: every day document of the user, keyed by date,
        gathered one document at a time. */
    method GetMealPlan(uid: string) returns (plan: map<string, DayPlan>)
      ensures plan == PlanOf(uid)
      ensures forall date :: date in plan ==> plan[date] == DayOf(uid, date)
    {
      var days := PlanOf(uid);
      plan := map[];
      var pending := days.Keys;
      while pending != {}
        invariant pending <= days.Keys
        invariant plan.Keys == days.Keys - pending
        invariant forall date :: date in plan ==> plan[date] == days[date]
        decreases pending
      {
        var date :| date in pending;
        plan := plan[date := days[date]];
        pending := pending - {date};
      }
    }
  }
}

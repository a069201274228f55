/** The reads of the document store (`src/libs/db.js`): substring search over
    the custom recipes, the two-step custom recipe lookup, the comments of a
    recipe newest first, a user's own recipes and the eight newest custom
    recipes. Each read works on what one `getDocs` of the collection returned. */
module Queries {
  import opened Text
  import opened Records

  // ---------------------------------------------------------------------
  // Search

  /** `{ ...doc.data(), idMeal: doc.id }`: the document key replaces any
      stored `idMeal`; every other field is the stored one. */
  function WithKeyAsId(d: Doc): (r: Record)
    ensures Get(r, IdMeal) == Str(d.key)
    ensures forall k :: k != IdMeal ==> Get(r, k) == Get(d.data, k)
  {
    d.data[IdMeal := Str(d.key)]
  }

  function WithKeysAsIds(docs: seq<Doc>): (r: seq<Record>)
    ensures |r| == |docs|
    ensures forall i :: 0 <= i < |docs| ==> r[i] == WithKeyAsId(docs[i])
  {
    seq(|docs|, i requires 0 <= i < |docs| => WithKeyAsId(docs[i]))
  }

  /** The search predicate on one record, given the lower-cased query:
      the lower-cased title contains it, or else the category (when truthy)
      does. `None` where the source throws a `TypeError`: a title that is not
      a string, or a truthy category that is not one. */
  function Matches(rec: Record, lowerQuery: string): Option<bool> {
    var title := Get(rec, StrMeal);
    var category := Get(rec, StrCategory);
    if !title.Str? then None
    else if Contains(Lower(title.s), lowerQuery) then Some(true)
    else if !Truthy(category) then Some(false)
    else if category.Str? then Some(Contains(Lower(category.s), lowerQuery))
    else None
  }

  /** `records.filter(...)` with the search predicate: the records that match,
      in order, or `None` as soon as one record makes the predicate throw. */
  function SearchFilter(recs: seq<Record>, lowerQuery: string): (r: Option<seq<Record>>)
    ensures r.None? <==> exists i :: 0 <= i < |recs| && Matches(recs[i], lowerQuery).None?
    ensures r.Some? ==> IsSubsequence(r.value, recs)
    ensures r.Some? ==> forall x :: x in r.value ==> Matches(x, lowerQuery) == Some(true)
    ensures r.Some? ==> forall i :: 0 <= i < |recs| && Matches(recs[i], lowerQuery) == Some(true) ==> recs[i] in r.value
    decreases |recs|
  {
    if recs == [] then Some([])
    else
      match Matches(recs[0], lowerQuery)
      case None => None
      case Some(keep) =>
        match SearchFilter(recs[1..], lowerQuery)
        case None => None
        case Some(rest) =>
          if keep then
            assert ([recs[0]] + rest)[1..] == rest;
            Some([recs[0]] + rest)
          else Some(rest)
  }

  /** `searchCustomRecipes(searchQuery)`: the stored recipes, each with its key
      as `idMeal`, whose title or category contains the query ignoring case,
      in store order; `[]` when the read fails or any record makes the filter
      throw. */
  function SearchCustomRecipes(snap: Fetch, searchQuery: string): (r: seq<Record>)
    ensures snap.FetchFailed? ==> r == []
    ensures forall x :: x in r ==> Matches(x, Lower(searchQuery)) == Some(true)
    ensures snap.Fetched? ==> IsSubsequence(r, WithKeysAsIds(snap.docs))
    ensures forall x :: x in r ==> snap.Fetched? && exists i :: 0 <= i < |snap.docs| && x == WithKeyAsId(snap.docs[i])
    ensures snap.Fetched? ==>
              (exists i :: 0 <= i < |snap.docs| && Matches(WithKeyAsId(snap.docs[i]), Lower(searchQuery)).None?) ==> r == []
    ensures snap.Fetched? ==>
              (forall i :: 0 <= i < |snap.docs| ==> Matches(WithKeyAsId(snap.docs[i]), Lower(searchQuery)).Some?) ==>
              forall i :: 0 <= i < |snap.docs| && Matches(WithKeyAsId(snap.docs[i]), Lower(searchQuery)) == Some(true)
                ==> WithKeyAsId(snap.docs[i]) in r
  {
    match snap
    case FetchFailed => []
    case Fetched(docs) =>
      var recs := WithKeysAsIds(docs);
      match SearchFilter(recs, Lower(searchQuery))
      case None => []
      case Some(found) =>
        SubsequenceMembers(found, recs);
        found
  }

  /** Searching is case-insensitive in the query: lower-casing the query first
      changes nothing. */
  lemma SearchIgnoresQueryCase(snap: Fetch, searchQuery: string)
    ensures SearchCustomRecipes(snap, Lower(searchQuery)) == SearchCustomRecipes(snap, searchQuery)
  {
    LowerIsIdempotent(searchQuery);
  }

  // ---------------------------------------------------------------------
  // getCustomRecipe

  /** The position of the first document whose key is `id`. */
  function FindKey(docs: seq<Doc>, id: string): (i: Option<nat>)
    ensures i.Some? ==> i.value < |docs| && docs[i.value].key == id
                        && forall j :: 0 <= j < i.value ==> docs[j].key != id
    ensures i.None? ==> forall j :: 0 <= j < |docs| ==> docs[j].key != id
    decreases |docs|
  {
    if docs == [] then None
    else if docs[0].key == id then Some(0)
    else match FindKey(docs[1..], id)
      case None => None
      case Some(j) => Some(j + 1)
  }

  /** The position of the first document whose stored `idMeal` is `id`. */
  function FindIdMeal(docs: seq<Doc>, id: string): (i: Option<nat>)
    ensures i.Some? ==> i.value < |docs| && Get(docs[i.value].data, IdMeal) == Str(id)
                        && forall j :: 0 <= j < i.value ==> Get(docs[j].data, IdMeal) != Str(id)
    ensures i.None? ==> forall j :: 0 <= j < |docs| ==> Get(docs[j].data, IdMeal) != Str(id)
    decreases |docs|
  {
    if docs == [] then None
    else if Get(docs[0].data, IdMeal) == Str(id) then Some(0)
    else match FindIdMeal(docs[1..], id)
      case None => None
      case Some(j) => Some(j + 1)
  }

  /** `getCustomRecipe(id)`: the document whose key is `id`, with `idMeal` set
      to the key; failing that, the first document whose stored `idMeal` is
      `id`, as stored; failing that, or when the read fails or `id` names no
      document (`doc()` throws), `null`. */
  function GetCustomRecipe(snap: Fetch, id: string): (r: Option<Record>)
    ensures snap.FetchFailed? || !ValidDocId(id) ==> r.None?
    ensures r.Some? ==> Get(r.value, IdMeal) == Str(id)
    ensures snap.Fetched? && ValidDocId(id) ==>
              (r.None? <==> forall j :: 0 <= j < |snap.docs| ==>
                              snap.docs[j].key != id && Get(snap.docs[j].data, IdMeal) != Str(id))
    ensures snap.Fetched? && ValidDocId(id) && UniqueKeys(snap.docs) ==>
              forall j :: 0 <= j < |snap.docs| && snap.docs[j].key == id ==> r == Some(WithKeyAsId(snap.docs[j]))
    ensures snap.Fetched? && ValidDocId(id) && (forall j :: 0 <= j < |snap.docs| ==> snap.docs[j].key != id) ==>
              forall j :: 0 <= j < |snap.docs| && Get(snap.docs[j].data, IdMeal) == Str(id)
                          && (forall k :: 0 <= k < j ==> Get(snap.docs[k].data, IdMeal) != Str(id))
                ==> r == Some(snap.docs[j].data)
  {
    match snap
    case FetchFailed => None
    case Fetched(docs) =>
      if !ValidDocId(id) then None
      else match FindKey(docs, id)
        case Some(i) => Some(WithKeyAsId(docs[i]))
        case None =>
          match FindIdMeal(docs, id)
          case Some(i) => Some(docs[i].data)
          case None => None
  }

  // ---------------------------------------------------------------------
  // Newest first

  /** The `createdAt` stamp as a string (`toISOString` output when written by
      this application). */
  function StampOf(r: Record): string {
    Stringify(Get(r, CreatedAt))
  }

  /** `a` was created no earlier than `b`. */
  predicate NotOlder(a: Record, b: Record) {
    !LexLess(StampOf(a), StampOf(b))
  }

  predicate NewestFirst(s: seq<Record>) {
    forall i, j :: 0 <= i < j < |s| ==> NotOlder(s[i], s[j])
  }

  lemma NotOlderTransitive(a: Record, b: Record, c: Record)
    requires NotOlder(a, b) && NotOlder(b, c)
    ensures NotOlder(a, c)
  {
    LexLessTotal(StampOf(a), StampOf(b));
    LexLessTotal(StampOf(b), StampOf(c));
    LexLessTotal(StampOf(a), StampOf(c));
    if LexLess(StampOf(c), StampOf(b)) && LexLess(StampOf(b), StampOf(a)) {
      LexLessTransitive(StampOf(c), StampOf(b), StampOf(a));
    }
  }

  /** Places `x` before the first element not newer than it, so that among
      equal stamps the inserted element comes first. */
  function InsertByStamp(x: Record, s: seq<Record>): (r: seq<Record>)
    requires NewestFirst(s)
    ensures NewestFirst(r)
    ensures multiset(r) == multiset(s) + multiset{x}
    decreases |s|
  {
    if s == [] || NotOlder(x, s[0]) then
      forall j | 0 <= j < |s|
        ensures NotOlder(x, s[j])
      {
        if j > 0 {
          NotOlderTransitive(x, s[0], s[j]);
        }
      }
      [x] + s
    else
      LexLessTotal(StampOf(x), StampOf(s[0]));
      var rest := InsertByStamp(x, s[1..]);
      assert s == [s[0]] + s[1..];
      forall j | 0 <= j < |rest|
        ensures NotOlder(s[0], rest[j])
      {
        assert rest[j] in multiset(rest);
        if rest[j] != x {
          assert rest[j] in s[1..];
        }
      }
      [s[0]] + rest
  }

  /** `sort((a, b) => new Date(b.createdAt) - new Date(a.createdAt))`:
      newest first, nothing added or lost. */
  function SortNewestFirst(s: seq<Record>): (r: seq<Record>)
    ensures NewestFirst(r)
    ensures multiset(r) == multiset(s)
    decreases |s|
  {
    if s == [] then []
    else
      assert s == [s[0]] + s[1..];
      InsertByStamp(s[0], SortNewestFirst(s[1..]))
  }

  // ---------------------------------------------------------------------
  // Comments

  /** `{ ...doc.data(), id: doc.id }`. */
  function WithCommentId(d: Doc): Record {
    d.data[CommentId := Str(d.key)]
  }

  /** `where('recipeId', '==', String(recipeId))` as a test on one document. */
  function FiledUnder(recipeId: Value): Doc -> bool {
    (d: Doc) => Get(d.data, RecipeId) == Str(Stringify(recipeId))
  }

  /** The comment documents filed under `String(recipeId)`. */
  function CommentsOf(docs: seq<Doc>, recipeId: Value): (r: seq<Doc>)
    ensures IsSubsequence(r, docs)
    ensures forall d :: d in r <==> d in docs && Get(d.data, RecipeId) == Str(Stringify(recipeId))
  {
    Filter(docs, FiledUnder(recipeId))
  }

  /** The comments filed under `String(recipeId)`, each with its key as `id`,
      in store order. */
  function CommentRecords(docs: seq<Doc>, recipeId: Value): (r: seq<Record>)
    ensures |r| == |CommentsOf(docs, recipeId)|
    ensures forall i :: 0 <= i < |r| ==> r[i] == WithCommentId(CommentsOf(docs, recipeId)[i])
    ensures forall x :: x in r ==> Get(x, RecipeId) == Str(Stringify(recipeId))
    ensures forall x :: x in r ==> exists d :: d in docs && Get(d.data, RecipeId) == Str(Stringify(recipeId)) && x == WithCommentId(d)
    ensures forall d :: d in docs && Get(d.data, RecipeId) == Str(Stringify(recipeId)) ==> WithCommentId(d) in r
  {
    var mine := CommentsOf(docs, recipeId);
    var r := seq(|mine|, i requires 0 <= i < |mine| => WithCommentId(mine[i]));
    forall d | d in docs && Get(d.data, RecipeId) == Str(Stringify(recipeId))
      ensures WithCommentId(d) in r
    {
      var i :| 0 <= i < |mine| && mine[i] == d;
      assert r[i] == WithCommentId(d);
    }
    r
  }

  /** `getComments(recipeId)`: exactly the comments filed under
      `String(recipeId)`, each with its key as `id`, newest first; `None` when
      the read fails (the promise rejects). */
  function GetComments(snap: Fetch, recipeId: Value): (r: Option<seq<Record>>)
    ensures r.None? <==> snap.FetchFailed?
    ensures r.Some? ==> NewestFirst(r.value)
    ensures r.Some? ==> forall x :: x in r.value ==> Get(x, RecipeId) == Str(Stringify(recipeId))
    ensures r.Some? ==> forall d :: d in snap.docs && Get(d.data, RecipeId) == Str(Stringify(recipeId))
                          ==> WithCommentId(d) in r.value
    ensures r.Some? ==> forall x :: x in r.value ==> exists d :: d in snap.docs && x == WithCommentId(d)
    ensures r.Some? ==> multiset(r.value) == multiset(CommentRecords(snap.docs, recipeId))
  {
    match snap
    case FetchFailed => None
    case Fetched(docs) =>
      var shaped := CommentRecords(docs, recipeId);
      var sorted := SortNewestFirst(shaped);
      SameMultisetSameMembers(shaped, sorted);
      Some(sorted)
  }

  /** A comment appended under `recipeId` is listed by
      `getComments(recipeId)`, which then lists exactly one entry more; one
      filed elsewhere adds none. */
  lemma CommentCountAfterAppend(docs: seq<Doc>, d: Doc, recipeId: Value)
    ensures Get(d.data, RecipeId) == Str(Stringify(recipeId)) ==>
              WithCommentId(d) in GetComments(Fetched(docs + [d]), recipeId).value
    ensures Get(d.data, RecipeId) == Str(Stringify(recipeId)) ==>
              |GetComments(Fetched(docs + [d]), recipeId).value| == |GetComments(Fetched(docs), recipeId).value| + 1
    ensures Get(d.data, RecipeId) != Str(Stringify(recipeId)) ==>
              |GetComments(Fetched(docs + [d]), recipeId).value| == |GetComments(Fetched(docs), recipeId).value|
  {
    FilterSnoc(docs, d, FiledUnder(recipeId));
    var before := CommentsOf(docs, recipeId);
    var after := CommentsOf(docs + [d], recipeId);
    assert |after| == |before| + (if FiledUnder(recipeId)(d) then 1 else 0);
    assert |GetComments(Fetched(docs), recipeId).value| == |CommentRecords(docs, recipeId)| == |before|
      by { assert |multiset(GetComments(Fetched(docs), recipeId).value)| == |multiset(CommentRecords(docs, recipeId))|; }
    assert |GetComments(Fetched(docs + [d]), recipeId).value| == |CommentRecords(docs + [d], recipeId)| == |after|
      by { assert |multiset(GetComments(Fetched(docs + [d]), recipeId).value)| == |multiset(CommentRecords(docs + [d], recipeId))|; }
  }

  // ---------------------------------------------------------------------
  // A user's recipes

  /** The custom recipe documents whose `userId` is `uid`. */
  function OwnedBy(docs: seq<Doc>, uid: string): (r: seq<Doc>)
    ensures IsSubsequence(r, docs)
    ensures forall d :: d in r <==> d in docs && Get(d.data, UserId) == Str(uid)
  {
    Filter(docs, (d: Doc) => Get(d.data, UserId) == Str(uid))
  }

  /** `getMyRecipes(uid)`: the user's recipes, each with its key as `idMeal`,
      in store order; `None` when the read fails. */
  function GetMyRecipes(snap: Fetch, uid: string): (r: Option<seq<Record>>)
    ensures r.None? <==> snap.FetchFailed?
    ensures r.Some? ==> forall x :: x in r.value ==> Get(x, UserId) == Str(uid)
    ensures r.Some? ==> forall d :: d in snap.docs && Get(d.data, UserId) == Str(uid) ==> WithKeyAsId(d) in r.value
    ensures r.Some? ==> r.value == WithKeysAsIds(OwnedBy(snap.docs, uid))
  {
    match snap
    case FetchFailed => None
    case Fetched(docs) =>
      var mine := OwnedBy(docs, uid);
      var r := WithKeysAsIds(mine);
      forall d | d in docs && Get(d.data, UserId) == Str(uid)
        ensures WithKeyAsId(d) in r
      {
        var i :| 0 <= i < |mine| && mine[i] == d;
        assert r[i] == WithKeyAsId(d);
      }
      Some(r)
  }

  // ---------------------------------------------------------------------
  // The eight newest custom recipes

  /** How many recipes the home page's community row asks for. */
  const LatestCount: nat := 8

  /** The documents `orderBy('createdAt')` takes part in: those with a
      (string) `createdAt`, each with its key as `idMeal`. */
  function Stamped(docs: seq<Doc>): seq<Record> {
    WithKeysAsIds(Filter(docs, (d: Doc) => Get(d.data, CreatedAt).Str?))
  }

  /** `getLatestCustomRecipes()`: at most eight recipes, newest first, none of
      those left out newer than any returned one; `[]` when the read fails. */
  function LatestCustomRecipes(snap: Fetch): (r: seq<Record>)
    ensures snap.FetchFailed? ==> r == []
    ensures |r| <= LatestCount
    ensures NewestFirst(r)
    ensures snap.Fetched? ==> |r| == Min(LatestCount, |Stamped(snap.docs)|)
    ensures snap.Fetched? ==> multiset(r) <= multiset(Stamped(snap.docs))
    ensures snap.Fetched? ==> forall x, y :: x in multiset(Stamped(snap.docs)) - multiset(r) && y in r ==> NotOlder(y, x)
  {
    match snap
    case FetchFailed => []
    case Fetched(docs) =>
      var sorted := SortNewestFirst(Stamped(docs));
      var k := Min(LatestCount, |sorted|);
      NewestPrefix(sorted, k);
      sorted[..k]
  }

  /** The first `k` of a newest-first list: newest first themselves, part of
      the list, and none of the rest newer than any of them. */
  lemma NewestPrefix(sorted: seq<Record>, k: nat)
    requires NewestFirst(sorted) && k <= |sorted|
    ensures NewestFirst(sorted[..k])
    ensures multiset(sorted[..k]) <= multiset(sorted)
    ensures forall x, y :: x in multiset(sorted) - multiset(sorted[..k]) && y in sorted[..k] ==> NotOlder(y, x)
  {
    assert sorted == sorted[..k] + sorted[k..];
    forall x, y | x in multiset(sorted) - multiset(sorted[..k]) && y in sorted[..k]
      ensures NotOlder(y, x)
    {
      assert x in multiset(sorted[k..]);
      var j :| k <= j < |sorted| && sorted[j] == x;
      var i :| 0 <= i < k && sorted[i] == y;
    }
  }
}

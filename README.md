# chefs-table recipe records in Dafny

This project models the recipe-record layer of chefs-table, a React and Firebase recipe
application. The application uses TheMealDB's flat recipe schema, which stores a recipe's
ingredients in 20 numbered slot pairs (`strIngredient1..20`, `strMeasure1..20`). The recipe
editors work with an ordered list of `{ name, measure }` rows instead. The model covers:

- **The ingredient transcoder** (`transcoder.dfy`). `Decode` reads slots 1..20 and keeps every
  slot whose name is a non-blank string, in slot order. `SparseSlots` is the creation encoder:
  row `i` goes to slot `i + 1` only when its name is non-blank. `UpdateSlots` is the update
  encoder: it first blanks all 20 slot pairs, then writes the kept rows. Neither encoder
  compacts the list, so a blank row leaves a gap in the slots. Both encoders also write keys
  past slot 20, which `Decode` never reads.
- **The two editors** (`edit_recipe.dfy`, `create_recipe.dfy`). Each keeps its loops as
  methods, and each loop is proved against the transcoder's functions. Also modelled: the
  form load, the submit guards, the payload spread (later keys win) and row add, remove and
  change.
- **The recipe page** (`recipe_details.dfy`). The id resolver asks TheMealDB only for ids that
  look numeric, and a TheMealDB failure is swallowed. It then falls back to the custom store:
  first by document key, then by the stored `idMeal`. Also modelled: the displayed ingredient
  list, the favourite toggle and the instruction paragraphs.
- **The document store** (`queries.dfy`, `store.dfy`). The reads work on what one `getDocs`
  returned, which is a list of documents or a failure. The reads are search, the custom recipe
  lookup, comments newest first, a user's recipes and the eight newest recipes. The writes are
  methods of a `Store` class that holds the collections as fields. Each write states its
  whole new state, so nothing else changes.
- **The search page** (`search.dfy`): the merged result list (custom matches first), when a
  new search is accepted, and the page title rule.
- **The sign-up handler** (`signup.dfy`): the two password guards, in order, and the mapping
  of error codes to messages.

`text.dfy` holds the JavaScript string operations these rely on: `trim` with its exact white
space set, ASCII `toLowerCase`, `includes`, `split("\n")` and the `isNaN` test on strings.
It also holds the order of ISO-8601 time stamps. `records.dfy` holds the record shape: field
values, keys, documents and the outcomes of fetches.

Behaviour of the code that the model keeps as written:

- List entries past slot 20 are written to `strIngredient21` and beyond; only the readers
  ignore them (`Transcoder.OverflowIsWrittenButNotRead`).
- The editor keeps a missing measure as stored (`EditRecipe.LoadIngredients`); only the
  recipe page defaults it to `""`.
- A recipe's identifier is stored as `idMeal`; `id` is used only for comment keys.
- `deleteUserData` deletes the user's custom recipes and the profile document only. The
  user's comments and the `favorites` and `meal_plan` sub-collections remain
  (`DocumentStore.Store.DeleteUserData`).
- The creation form offers the remove control only while more than one row exists. The edit
  form always offers it, so an edited list can become empty. Saving an empty list blanks all
  20 slots (`EditRecipe.UpdateClearsStaleSlots`).

## Model

| member | source | states |
|---|---|---|
| Transcoder.DecodeUpToReadsQualifyingSlots | src/pages/EditRecipe.jsx:48-55 | reading slots 1..n yields one row per slot with a non-blank string name, in ascending slot order, built from that slot's name and measure; every other slot is skipped |
| Transcoder.DecodeReadsQualifyingSlots | src/pages/EditRecipe.jsx:47-55 | the loaded list holds exactly the slots 1..20 with a non-blank name, in ascending order, so it has at most 20 rows |
| Transcoder.DecodedNamesAreNonBlank | src/pages/EditRecipe.jsx:52-54 | every row read back has a non-blank name |
| Transcoder.DecodeUpToReadsOnlySlots | src/pages/EditRecipe.jsx:48-51 | only slot pairs 1..n are read: two records that agree on those pairs decode to the same list |
| Transcoder.SparseSlotsHoldKeptRows | src/pages/CreateRecipe.jsx:76-82 | the creation map has an ingredient key and a measure key exactly for the positions whose name is non-blank; both come from the same row at slot position + 1; no other key is written |
| Transcoder.BlankSlotsExactly | src/pages/EditRecipe.jsx:99-103 | the clearing loop writes exactly the 40 keys of slots 1..20, each as `""` |
| Transcoder.UpdateSlotsCoverEverySlot | src/pages/EditRecipe.jsx:99-111 | the update map always holds all 20 ingredient and 20 measure keys; a slot no kept row fills is `""`; a kept row at position i fills slot i+1, name and measure; past slot 20 only kept rows have keys |
| Transcoder.SlotsReadBackAsRows | src/pages/EditRecipe.jsx:106-111 | slot by slot, both encodings read back as the row at that position when it is kept, and as nothing otherwise |
| Transcoder.DecodeUpdateSlots | src/pages/EditRecipe.jsx:99-111 | loading the update map gives the non-blank rows among the first 20, in order |
| Transcoder.DecodeSparseSlots | src/pages/CreateRecipe.jsx:76-82 | loading the creation map gives the non-blank rows among the first 20, in order; the reader closes the gaps that blank rows leave |
| Transcoder.RoundTrip | src/pages/EditRecipe.jsx:106-111 | a list of at most 20 rows with non-blank names is read back unchanged from either encoding |
| Transcoder.OverflowIsWrittenButNotRead | src/pages/EditRecipe.jsx:106-111 | with more than 20 non-blank rows, both encoders write keys past slot 20, but reading back gives only the first 20 rows, which differ from the list written |
| Transcoder.AddRow | src/pages/EditRecipe.jsx:85 | `addIngredient` appends one empty row and keeps the others |
| Transcoder.RemoveRow | src/pages/EditRecipe.jsx:87 | `removeIngredient(index)` drops exactly the row at `index` and keeps the order of the rest; an index out of range changes nothing |
| Transcoder.ChangeIngredient | src/pages/EditRecipe.jsx:79-83 | `handleIngredientChange` sets the named field of the row at `index`; every other row and the other field are unchanged |
| EditRecipe.LoadIngredients | src/pages/EditRecipe.jsx:47-57 | the load loop yields the decoded list; when no slot qualifies, it yields one empty row instead of an empty list |
| EditRecipe.LoadedRowsAreNonBlank | src/pages/EditRecipe.jsx:47-55 | a loaded list has at most 20 rows, each with a non-blank name |
| EditRecipe.LoadForm | src/pages/EditRecipe.jsx:35-44 | the form gets exactly eight fields: five copied as stored; `cookingTime` and `servings` fall back to `""` and `difficulty` to `"Easy"` when the stored value is falsy |
| EditRecipe.EncodeForUpdate | src/pages/EditRecipe.jsx:99-111 | the two loops build exactly the update map |
| EditRecipe.IngredientKeysOverrideForm | src/pages/EditRecipe.jsx:113-116 | in the payload, slots 1..20 hold the ingredient map's values whatever the form held; every form field is kept |
| EditRecipe.UpdateClearsStaleSlots | src/pages/EditRecipe.jsx:96-103 | whatever the stored record held, once the update is merged over it, reloading gives the non-blank rows among the first 20 submitted; with k ≤ 20 rows, slots k+1..20 are `""` |
| EditRecipe.SaveThenLoad | src/pages/EditRecipe.jsx:113-118 | the editor round trip: saving a list of at most 20 non-blank rows over any stored record and reloading gives the same list |
| CreateRecipe.RemoveIngredient | src/pages/CreateRecipe.jsx:55-58 | removal, which the form offers only while two or more rows exist, drops exactly the row at `index`, keeps the order of the rest and leaves at least one row |
| CreateRecipe.RowsNeverRunOut | src/pages/CreateRecipe.jsx:242-250 | the form starts with two rows; adding a row or an offered removal never leaves the list empty |
| CreateRecipe.EncodeForCreate | src/pages/CreateRecipe.jsx:76-82 | the `forEach` builds exactly the creation map |
| CreateRecipe.Submit | src/pages/CreateRecipe.jsx:62-91 | without a signed-in user nothing is written; a falsy title or instructions gives the complaint and writes nothing; otherwise exactly the form spread with the creation map and the user's identity fields is published, with a truthy title and instructions |
| CreateRecipe.InitialFormIsRefused | src/pages/CreateRecipe.jsx:26-36 | the untouched form is refused whatever the rows; with a title and instructions typed into it, it is published exactly when both are non-empty, so the preset category, area and difficulty never block it |
| CreateRecipe.PayloadFields | src/pages/CreateRecipe.jsx:84-91 | the payload has `isCustom` true, the user's `userId` and `author`, and the client id as `idMeal`, whatever the form held; its slot keys are exactly the kept rows' keys; every other form field is kept |
| CreateRecipe.PublishedRowsReadBack | src/pages/CreateRecipe.jsx:76-93 | a published recipe reads back as the non-blank rows among the first 20, in order |
| Queries.WithKeyAsId | src/libs/db.js:74-77 | the document key replaces any stored `idMeal`; every other field is the stored one |
| Queries.SearchFilter | src/libs/db.js:81-84 | the filter keeps, in order, exactly the records whose lower-cased title, or else truthy category, contains the query; it fails as soon as one record makes the predicate throw |
| Queries.SearchCustomRecipes | src/libs/db.js:69-89 | search yields store-ordered records that match ignoring case, each carrying its document key as `idMeal`; when no record throws, every matching record is included; a failed read or any throwing record yields `[]` |
| Queries.SearchIgnoresQueryCase | src/libs/db.js:79-83 | lower-casing the query first does not change the result |
| Queries.FindKey | src/libs/db.js:97-101 | finds the first document whose key is the id, or reports that none has it |
| Queries.FindIdMeal | src/libs/db.js:105-110 | finds the first document whose stored `idMeal` is the id, or reports that none has it |
| Queries.GetCustomRecipe | src/libs/db.js:95-116 | a key hit returns that record with `idMeal` set to the key; otherwise the first record whose stored `idMeal` is the id, unchanged; `null` only when neither exists, the read fails or the id names no document; any result has `idMeal` equal to the id |
| Queries.NotOlderTransitive | src/libs/db.js:212 | "created no earlier than" on ISO time stamps is transitive |
| Queries.InsertByStamp | src/libs/db.js:212 | inserting into a newest-first list keeps it newest first and adds exactly that element |
| Queries.SortNewestFirst | src/libs/db.js:212 | the comment sort yields a newest-first permutation of its input |
| Queries.CommentsOf | src/libs/db.js:199-202 | the query keeps, in order, exactly the comments whose `recipeId` is `String(recipeId)` |
| Queries.CommentRecords | src/libs/db.js:206-209 | one record per kept comment, in query order, each the stored data with its key as `id`; nothing else |
| Queries.GetComments | src/libs/db.js:196-213 | `getComments` returns a permutation of the comments filed under `String(recipeId)`, each once and with its key as `id`, newest first; it rejects when the read fails |
| Queries.CommentCountAfterAppend | src/libs/db.js:183-213 | a comment appended under `recipeId` is listed by `getComments(recipeId)`, which then lists exactly one more comment; one filed elsewhere changes nothing |
| Queries.OwnedBy | src/libs/db.js:118-121 | the `userId == uid` query keeps, in order, exactly the user's recipes |
| Queries.GetMyRecipes | src/libs/db.js:118-127 | exactly the user's recipes in query order, each with its key as `idMeal`: every returned recipe is the user's and each of the user's recipes is returned; a failed read rejects |
| Queries.NewestPrefix | src/libs/db.js:145 | the first k of a newest-first list are newest first, are drawn from the list, and nothing after them is newer than any of them |
| Queries.LatestCustomRecipes | src/libs/db.js:142-156 | at most 8 recipes, newest first, drawn from the stored ones; exactly min(8, n) of the n time-stamped recipes; no recipe left out is newer than one returned; `[]` when the read fails |
| DocumentStore.FavoriteEntry | src/libs/db.js:28-34 | the favourite document holds exactly `idMeal`, `strMeal`, `strMealThumb`, `strCategory` and `strArea`, copied from the recipe |
| DocumentStore.PlanEntry | src/libs/db.js:229-235 | the meal-plan slot value holds exactly `idMeal`, `strMeal` and `strMealThumb`, copied from the recipe |
| DocumentStore.PatchDoc | src/libs/db.js:134-137 | `updateDoc` replaces or adds the named fields of the document with that key, and leaves its other fields and all other documents unchanged |
| DocumentStore.BatchKeys | src/libs/db.js:170-172 | the batch collects exactly the keys of the queried documents |
| DocumentStore.BatchRemovesExactlyOwned | src/libs/db.js:166-172 | deleting the batch's keys leaves, in order, exactly the recipes not owned by the user |
| DocumentStore.NothingLeftOwned | src/libs/db.js:162-179 | afterwards no remaining recipe is the user's, and `getMyRecipes` finds none |
| DocumentStore.Store.CheckFavoriteStatus | src/libs/db.js:42-46 | true exactly when the favourite document exists; throws on an id that names no document |
| DocumentStore.Store.GetFavorites | src/libs/db.js:48-52 | returns exactly the user's stored favourite entries, each filed under its own `idMeal` |
| DocumentStore.Store.AddToFavorites | src/libs/db.js:26-35 | stores the five-field entry under `recipe.idMeal`, replacing any earlier one; afterwards the status is true and the entry is listed; refused when `idMeal` names no document or a field is `undefined`; nothing else changes |
| DocumentStore.Store.RemoveFromFavorites | src/libs/db.js:37-40 | deletes just that favourite; afterwards the status is false; nothing else changes |
| DocumentStore.Store.CreateRecipe | src/libs/db.js:56-62 | appends the data, with `createdAt` set, under a fresh key and returns that key; `getCustomRecipe` then finds it by the key; refused on an `undefined` field |
| DocumentStore.Store.UpdateRecipe | src/libs/db.js:134-137 | merges the patch into the existing document; refused when the document is missing, the id is not a document id or a field is `undefined`; nothing else changes |
| DocumentStore.Store.DeleteRecipe | src/libs/db.js:129-132 | removes the document with that key, if any, and keeps the others in order |
| DocumentStore.Store.DeleteUserData | src/libs/db.js:162-179 | removes exactly the custom recipes whose `userId` is the uid, and the profile; comments, favourites and meal plans are unchanged |
| DocumentStore.Store.CommentData | src/libs/db.js:184-188 | the stored comment has `recipeId` as `String(recipeId)` and the `createdAt` stamp; its other fields are the given ones |
| DocumentStore.Store.AddComment | src/libs/db.js:183-189 | appends the comment under a fresh key; `getComments` then returns it, and one more comment than before, for any id with the same string form (the number 52772 and the string "52772" alike) |
| DocumentStore.Store.DeleteComment | src/libs/db.js:215-217 | removes that comment, if present, and keeps the others in order |
| DocumentStore.Store.AddToMealPlan | src/libs/db.js:226-236 | merges the summary into the given slot of that day, creating the day if needed; the day's other slots and the other days are unchanged; refused on an invalid date, an empty slot or an `undefined` field |
| DocumentStore.Store.RemoveFromMealPlan | src/libs/db.js:249-254 | deletes only that slot of an existing day; the day's other slots and the other days are unchanged; refused when the day document does not exist |
| DocumentStore.Store.GetMealPlan | src/libs/db.js:238-247 | the loop gathers every day document of the user, keyed by date |
| RecipeDetails.Resolve | src/pages/RecipeDetails.jsx:46-62 | TheMealDB's first meal is used only for an id that looks numeric and a non-empty `meals`; otherwise the custom recipe lookup decides; nothing is found exactly when both came up empty |
| RecipeDetails.FetchData | src/pages/RecipeDetails.jsx:46-84 | a found recipe replaces the page's recipe, and when nothing is found the previous one stays; the favourite flag changes only for a signed-in user and a found recipe, and then to the stored status of its `idMeal`; when that status is readable the flag equals it |
| RecipeDetails.ExternalLookupOnlyForNumericIds | src/pages/RecipeDetails.jsx:50-53 | an all-digit id uses TheMealDB's answer; an id that starts with a letter (other than the `I` of `Infinity`) never does |
| RecipeDetails.GetIngredients | src/pages/RecipeDetails.jsx:92-104 | no recipe gives `[]`; otherwise the loop yields the decoded list with falsy measures shown as `""` |
| RecipeDetails.DisplayedIngredients | src/pages/RecipeDetails.jsx:95-102 | at most 20 rows, one per slot with a non-blank name, in ascending slot order; each measure is the stored one when truthy and `""` otherwise |
| RecipeDetails.ToggleFavorite | src/pages/RecipeDetails.jsx:108-127 | without a user nothing changes; otherwise the flag flips exactly when the remove (if it was marked) or the add (if it was not) succeeds; a flip deletes or writes just that recipe's favourite entry, the stored status then matches the flag, and no other favourite changes |
| RecipeDetails.Paragraphs | src/pages/RecipeDetails.jsx:244-246 | the paragraphs are exactly the newline-separated pieces that are not blank, in order and with repeats kept, and none of them contains a newline; empty or missing instructions give none; a truthy non-string throws |
| Search.MealsOrEmpty | src/pages/Search.jsx:38 | a `null` `meals` counts as the empty list |
| Search.FetchRecipes | src/pages/Search.jsx:27-47 | an empty query or a failed lookup leaves the results unchanged; otherwise the results are all custom matches followed by all TheMealDB matches, each in its own order, with length equal to the sum |
| Search.LocalResultsComeFirst | src/pages/Search.jsx:38-41 | with a `null` `meals` the results are the custom matches alone; every custom match precedes every TheMealDB match, with no de-duplication |
| Search.HandleSearch | src/pages/Search.jsx:55-60 | the query changes, to the term as typed, exactly when the term is not blank |
| Search.PageTitle | src/pages/Search.jsx:63-71 | "Loading..." while loading; `<q> Recipes` for one of the seven standard categories; `Results for "<q>"` otherwise |
| Search.CategoryTitleIsCaseSensitive | src/pages/Search.jsx:66-67 | every standard category gets the category title as listed, while its lower-cased spelling is not a category and gets the search title |
| Signup.Utf16Length | src/pages/Signup.jsx:33 | `password.length` counts UTF-16 code units: between one and two per character |
| Signup.FailureMessage | src/pages/Signup.jsx:48-52 | the "already registered" message is shown exactly for `auth/email-already-in-use`; every other failure gets the generic message |
| Signup.HandleSubmit | src/pages/Signup.jsx:26-56 | a mismatch gives only the mismatch error; a matching password shorter than 6 gives only the length error; signup is called exactly when both guards pass, after the error line is cleared; success goes home, failure shows the mapped message |
| Signup.SupplementaryCharactersCountTwice | src/pages/Signup.jsx:33 | a password of characters outside the Basic Multilingual Plane has twice as many code units as characters, so three such characters pass the length guard and signup is called |
| Text.TrimIsEmptyIffBlank | src/pages/EditRecipe.jsx:52 | `s.trim()` is empty exactly when every character of `s` is JavaScript white space |
| Text.LowerIsIdempotent | src/libs/db.js:79 | lower-casing twice is the same as lower-casing once |
| Text.ContainsIffOccurs | src/libs/db.js:82-83 | `includes` holds exactly when the substring occurs at some position |
| Text.SplitLinesInverse | src/pages/RecipeDetails.jsx:244 | joining the `split("\n")` pieces with newlines gives back the text, and no piece contains a newline |
| Text.DigitStringLooksNumeric | src/pages/RecipeDetails.jsx:50 | a run of decimal digits passes `!isNaN(id)` |
| Text.LeadingLetterIsNotNumeric | src/pages/RecipeDetails.jsx:50 | an id starting with a letter other than `I` fails `!isNaN(id)` |
| Text.LexLessTotal | src/libs/db.js:212 | time stamps compare in exactly one way: one is earlier, the other is earlier, or they are equal |
| Text.LexLessTransitive | src/libs/db.js:212 | "earlier than" on time stamps is transitive |

## Left out

- Firebase itself is not modelled: network failures of writes, batch atomicity, indexes and
  authentication. The store is a set of fields of one `Store` object. A read is given as
  the list of documents it returned, or as a failure.
- Clocks and id generators are parameters: `new Date().toISOString()` (`now`),
  `Date.now().toString()` (`clientId`) and the key `addDoc` picks (`freshKey`, assumed unused).
- TheMealDB requests, `Promise.all` and the order of asynchronous steps are left out. An
  external answer is a parameter: meals, `null` meals, or a failure.
- Toasts, navigation, loading and `favLoading` flags, and all rendering are left out, except
  the page title and the paragraph split.
- MealPlanner, Dashboard, Favorites, Comments, Home, Login, the route guard, the auth context
  and `useRecipes` are not part of this model. They only call the operations modelled here.
- The order in which Firestore lists documents is left abstract: each collection is a list
  in store order. `Queries.LatestCustomRecipes`: among recipes with equal `createdAt`, the
  order Firestore applies (by document key) is not stated.
- Queries.LatestCustomRecipes: only documents with a string `createdAt` take part. Firestore
  would place other value types by its cross-type order. This application writes only ISO
  strings.
- Queries.GetComments: the order among comments with equal `createdAt` is not stated, though
  JavaScript's sort is stable. A `createdAt` that is not an ISO-8601 string is not modelled:
  `new Date` parsing and NaN comparisons are replaced by string order.
- DocumentStore.Store.GetFavorites: the result is a set, so the listing order and duplicates
  are not modelled.
- DocumentStore.Store.DeleteUserData: a failing query or commit is not modelled.
- Document ids: any id that is empty or contains `/` counts as naming no document, so
  `doc()` throws. An id with an even number of extra segments would in fact address a
  nested document. Reserved ids (`.`, `..`, `__x__`) and length limits are not modelled.
  The signed-in uid is never checked.
- DocumentStore.Store.RemoveFromMealPlan: a slot name containing `.` would be a nested field
  path for `updateDoc`. The model treats every slot as one plain field, and the planner's
  slots are `breakfast`, `lunch` and `dinner`.
- `toLowerCase` is modelled on ASCII letters only. Other characters are kept.
- Numbers are integers only. They appear as ratings and as ids passed to `String()`.
- A truthy non-string ingredient name is treated by the loaders as an unfilled slot.
  The source's `trim` would throw on it.
- Transcoder.ChangeIngredient: it writes a new row value into the array. The source mutates
  the row object itself, which the shallow copy shares with the previous list. That
  aliasing is not modelled.
- CreateRecipe.PayloadFields and CreateRecipe.PublishedRowsReadBack assume a form with only
  named fields and no `strIngredientN` keys. This holds for the page's inputs.
- RecipeDetails.FetchData: a status read that throws (an `idMeal` that is not a string or
  names no document) leaves the flag as it was, as the outer catch does. A network failure
  of that read, the toasts and the loading flag are not modelled. Each run is modelled on
  its own: two overlapping runs of the effect, whose writes could interleave, are not.

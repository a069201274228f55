/** The document values the recipe pages pass around: TheMealDB-shaped records
    (a JavaScript object, or a Firestore document's data) whose ingredient
    slots `strIngredient1..20` / `strMeasure1..20` sit beside named fields. */
module Records {

  datatype Option<+T> = None | Some(value: T)

  /** A field value. `Undefined` is what reading an absent property gives; the
      rest are the JSON/Firestore scalars the records hold (numbers are the
      integral ones the application stores: ratings). */
  datatype Value = Undefined | Null | Str(s: string) | Num(n: int) | Flag(b: bool)

  /** A property name. The numbered ingredient keys are kept structural:
      `IngredientSlot(3)` is the key `strIngredient3`, `MeasureSlot(3)` the key
      `strMeasure3`; every other property is a `Field`. */
  datatype Key = IngredientSlot(slot: nat) | MeasureSlot(slot: nat) | Field(name: string)

  predicate IsSlotKey(k: Key) {
    k.IngredientSlot? || k.MeasureSlot?
  }

  type Record = map<Key, Value>

  /** `record[key]`: an absent property reads as `undefined`. */
  function Get(r: Record, k: Key): Value {
    if k in r then r[k] else Undefined
  }

  /** JavaScript truthiness. */
  predicate Truthy(v: Value) {
    match v
    case Str(s) => s != []
    case Num(n) => n != 0
    case Flag(b) => b
    case _ => false
  }

  /** Decimal digits of a natural number, as `String(n)` writes them. */
  function DecimalString(n: nat): string
    decreases n
  {
    var digit := [(48 + n % 10) as char];
    if n < 10 then digit else DecimalString(n / 10) + digit
  }

  /** `String(v)`. */
  function Stringify(v: Value): string {
    match v
    case Undefined => "undefined"
    case Null => "null"
    case Str(s) => s
    case Num(n) => if n < 0 then "-" + DecimalString(-n) else DecimalString(n)
    case Flag(b) => if b then "true" else "false"
  }

  // Field names used by the recipe, comment, favourite and meal-plan records.
  const IdMeal: Key := Field("idMeal")
  const StrMeal: Key := Field("strMeal")
  const StrMealThumb: Key := Field("strMealThumb")
  const StrCategory: Key := Field("strCategory")
  const StrArea: Key := Field("strArea")
  const StrInstructions: Key := Field("strInstructions")
  const StrYoutube: Key := Field("strYoutube")
  const CookingTime: Key := Field("cookingTime")
  const Servings: Key := Field("servings")
  const Difficulty: Key := Field("difficulty")
  const UserId: Key := Field("userId")
  const Author: Key := Field("author")
  const IsCustom: Key := Field("isCustom")
  const CreatedAt: Key := Field("createdAt")
  const RecipeId: Key := Field("recipeId")
  const CommentId: Key := Field("id")

  /** A document of a collection: its key (the document id) and its data. */
  datatype Doc = Doc(key: string, data: Record)

  /** What a `getDocs` read of a collection returned: its documents in the
      order the store lists them, or a failure (network, permissions). */
  datatype Fetch = Fetched(docs: seq<Doc>) | FetchFailed

  /** What a TheMealDB request produced: the `{meals: [...] | null}` envelope,
      or a failure of `fetch`/`json()`. */
  datatype ApiReply = Replied(meals: Option<seq<Record>>) | Unreachable

  /** Document keys within one collection are distinct. */
  predicate UniqueKeys(docs: seq<Doc>) {
    forall i, j :: 0 <= i < j < |docs| ==> docs[i].key != docs[j].key
  }

  /** Firestore refuses to write a document holding an `undefined` value. */
  predicate Storable(r: Record) {
    forall k :: k in r ==> !r[k].Undefined?
  }

  /** A string that names one document below a collection: `doc(...)` throws on
      an empty id and an id with a `/` adds path segments, which also throws. */
  predicate ValidDocId(id: string) {
    id != [] && '/' !in id
  }

  /** `a` is `b` with some elements left out, the rest in their original order. */
  predicate IsSubsequence<T(==)>(a: seq<T>, b: seq<T>)
    decreases |b|
  {
    a == [] || (b != [] && ((a[0] == b[0] && IsSubsequence(a[1..], b[1..])) || IsSubsequence(a, b[1..])))
  }

  /** Every element of a subsequence is an element of the whole. */
  lemma {:induction false} SubsequenceMembers<T>(a: seq<T>, b: seq<T>)
    requires IsSubsequence(a, b)
    ensures forall x :: x in a ==> x in b
    decreases |b|
  {
    if a != [] {
      if a[0] == b[0] && IsSubsequence(a[1..], b[1..]) {
        SubsequenceMembers(a[1..], b[1..]);
        forall x | x in a ensures x in b {
          if x != a[0] {
            assert x in a[1..];
          }
        }
      } else {
        SubsequenceMembers(a, b[1..]);
      }
    }
  }

  /** `s.filter(keep)`: the elements that satisfy `keep`, in their order. */
  function Filter<T>(s: seq<T>, keep: T -> bool): (r: seq<T>)
    ensures |r| <= |s|
    ensures IsSubsequence(r, s)
    ensures forall x :: x in r ==> x in s && keep(x)
    ensures forall i :: 0 <= i < |s| && keep(s[i]) ==> s[i] in r
    decreases |s|
  {
    if s == [] then []
    else
      var rest := Filter(s[1..], keep);
      if keep(s[0]) then
        assert ([s[0]] + rest)[1..] == rest;
        [s[0]] + rest
      else rest
  }

  /** Two lists holding the same elements as many times have the same
      members. */
  lemma SameMultisetSameMembers<T>(a: seq<T>, b: seq<T>)
    requires multiset(a) == multiset(b)
    ensures forall x :: x in a <==> x in b
  {
    assert forall x :: x in a <==> x in multiset(a);
    assert forall x :: x in b <==> x in multiset(b);
  }

  /** Filtering a list with one more element at the end filters the rest
      the same way and keeps the new element exactly when it qualifies. */
  lemma {:induction false} FilterSnoc<T>(s: seq<T>, x: T, keep: T -> bool)
    ensures Filter(s + [x], keep) == Filter(s, keep) + (if keep(x) then [x] else [])
    decreases |s|
  {
    if s == [] {
      assert [x][1..] == [];
    } else {
      assert (s + [x])[1..] == s[1..] + [x];
      FilterSnoc(s[1..], x, keep);
    }
  }

  function Min(a: int, b: int): int {
    if a <= b then a else b
  }
}

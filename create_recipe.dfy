/** The recipe creation form: two empty ingredient rows to start with, the
    submit guards, the sparse ingredient encoding and the published payload. */
module CreateRecipe {
  import opened Text
  import opened Records
  import opened Transcoder

  /** The form starts with two empty ingredient rows. */
  const InitialRows: seq<Row> := [EmptyRow, EmptyRow]

  /** The form's initial fields. */
  const InitialForm: Record :=
    map[StrMeal := Str(""), StrMealThumb := Str(""), StrCategory := Str("Beef"), StrArea := Str("Unknown"),
        StrInstructions := Str(""), StrYoutube := Str(""), CookingTime := Str(""), Servings := Str(""),
        Difficulty := Str("Easy")]

  /** The remove control is rendered only while more than one row exists. */
  predicate RemoveOffered(rows: seq<Row>) {
    |rows| > 1
  }

  /** `removeIngredient(index)` as the form can trigger it: only on a rendered
      row while the control is shown, so at least one row always remains. */
  function RemoveIngredient(rows: seq<Row>, index: int): (r: seq<Row>)
    requires RemoveOffered(rows) && 0 <= index < |rows|
    ensures |r| == |rows| - 1 && r != []
    ensures forall j :: 0 <= j < |r| ==> r[j] == rows[if j < index then j else j + 1]
  {
    RemoveRow(rows, index)
  }

  /** The form can never be emptied of rows: from the two initial rows, any
      sequence of offered removals and additions keeps at least one. */
  lemma RowsNeverRunOut(rows: seq<Row>, index: int)
    requires rows != []
    ensures AddRow(rows) != []
    ensures RemoveOffered(rows) && 0 <= index < |rows| ==> RemoveIngredient(rows, index) != []
    ensures |InitialRows| == 2 && RemoveOffered(InitialRows)
  {
  }

  /** The submit encoder: rows visited in order, and a row whose name is
      non-blank after trimming written to slot `index + 1`, name and measure;
      a blank row adds no key at all. */
  method EncodeForCreate(rows: seq<Row>) returns (ingredientMap: Record)
    ensures ingredientMap == SparseSlots(rows)
  {
    ingredientMap := map[];
    var i := 0;
    while i < |rows|
      invariant 0 <= i <= |rows|
      invariant ingredientMap == SparseSlots(rows[..i])
    {
      assert rows[..i + 1][..i] == rows[..i];
      if !IsBlank(rows[i].name) {
        ingredientMap := ingredientMap[IngredientSlot(i + 1) := Str(rows[i].name)][MeasureSlot(i + 1) := rows[i].measure];
      }
      i := i + 1;
    }
    assert rows[..|rows|] == rows;
  }

  /** The signed-in user: `currentUser.uid` and `currentUser.email`. */
  datatype User = User(uid: string, email: string)

  /** The fields spread last into the payload, so they win over the form and
      the ingredient map. `clientId` is `Date.now().toString()`. */
  function Identity(user: User, clientId: string): Record {
    map[UserId := Str(user.uid), Author := Str(user.email), IdMeal := Str(clientId), IsCustom := Flag(true)]
  }

  /** `{ ...formData, ...ingredientMap, userId, author, idMeal, isCustom: true }`. */
  function Payload(form: Record, ingredientMap: Record, user: User, clientId: string): Record {
    form + ingredientMap + Identity(user, clientId)
  }

  /** What pressing submit leads to. */
  datatype Submission = SignedOut | MissingRequired | Publish(payload: Record)

  /** `handleSubmit`: nothing without a signed-in user; a complaint and
      nothing written while the title or the instructions are empty; the
      payload otherwise. */
  function Submit(user: Option<User>, form: Record, rows: seq<Row>, clientId: string): (s: Submission)
    ensures s.SignedOut? <==> user.None?
    ensures s.MissingRequired? <==> user.Some? && (!Truthy(Get(form, StrMeal)) || !Truthy(Get(form, StrInstructions)))
    ensures s.Publish? ==> user.Some? && Truthy(Get(s.payload, StrMeal)) && Truthy(Get(s.payload, StrInstructions))
    ensures s.Publish? ==> s.payload == Payload(form, SparseSlots(rows), user.value, clientId)
  {
    match user
    case None => SignedOut
    case Some(u) =>
      if !Truthy(Get(form, StrMeal)) || !Truthy(Get(form, StrInstructions)) then MissingRequired
      else
        SparseSlotsHoldKeptRows(rows);
        Publish(Payload(form, SparseSlots(rows), u, clientId))
  }

  /** The untouched form is refused, whatever the rows: its title and
      instructions are empty. Typing into those two fields alone is what
      makes it publishable; the preset category, area and difficulty never
      block it. */
  lemma InitialFormIsRefused(user: User, rows: seq<Row>, clientId: string, title: string, instructions: string)
    ensures Submit(Some(user), InitialForm, rows, clientId) == MissingRequired
    ensures Submit(Some(user), InitialForm[StrMeal := Str(title)][StrInstructions := Str(instructions)], rows, clientId).Publish?
            <==> title != "" && instructions != ""
  {
  }

  /** A form holding only named fields, no ingredient slots (as the page's
      inputs produce). */
  predicate FieldsOnly(form: Record) {
    forall k :: k in form ==> k.Field?
  }

  /** The published payload: `isCustom` is true, `userId` and `author` are the
      signed-in user's and `idMeal` the client id, whatever the form held; the
      slot keys are exactly the kept rows' (a blank row leaves a gap, not a
      shift); every other form field is kept. */
  lemma PayloadFields(form: Record, rows: seq<Row>, user: User, clientId: string)
    requires FieldsOnly(form)
    ensures var p := Payload(form, SparseSlots(rows), user, clientId);
      && Get(p, IsCustom) == Flag(true) && Get(p, UserId) == Str(user.uid)
      && Get(p, Author) == Str(user.email) && Get(p, IdMeal) == Str(clientId)
      && (forall n: nat :: IngredientSlot(n) in p <==> Kept(rows, n))
      && (forall n: nat :: MeasureSlot(n) in p <==> Kept(rows, n))
      && (forall n: nat :: Kept(rows, n) ==>
            p[IngredientSlot(n)] == Str(rows[n - 1].name) && p[MeasureSlot(n)] == rows[n - 1].measure)
      && (forall k :: k in form && k !in Identity(user, clientId) ==> k in p && p[k] == form[k])
  {
    SparseSlotsHoldKeptRows(rows);
  }

  /** A published recipe, read back, lists the non-blank rows among the first
      20 in order. */
  lemma PublishedRowsReadBack(form: Record, rows: seq<Row>, user: User, clientId: string)
    requires FieldsOnly(form)
    ensures Decode(Payload(form, SparseSlots(rows), user, clientId)) == NonBlank(rows[..Min(SlotCount, |rows|)])
  {
    PayloadSlotsAreEncoded(form, rows, user, clientId);
    DecodeUpToReadsOnlySlots(Payload(form, SparseSlots(rows), user, clientId), SparseSlots(rows), SlotCount);
    DecodeSparseSlots(rows);
  }

  /** Every slot of the payload holds what the ingredient map holds there. */
  lemma PayloadSlotsAreEncoded(form: Record, rows: seq<Row>, user: User, clientId: string)
    requires FieldsOnly(form)
    ensures forall i: nat :: Get(Payload(form, SparseSlots(rows), user, clientId), IngredientSlot(i))
                            == Get(SparseSlots(rows), IngredientSlot(i))
    ensures forall i: nat :: Get(Payload(form, SparseSlots(rows), user, clientId), MeasureSlot(i))
                            == Get(SparseSlots(rows), MeasureSlot(i))
  {
    SparseSlotsHoldKeptRows(rows);
  }
}

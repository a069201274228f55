/** The recipe editor: loading a stored custom recipe into the form and the
    ingredient list, and turning them back into the update written over the
    stored record. */
module EditRecipe {
  import opened Text
  import opened Records
  import opened Transcoder

  /** The load loop: slots 1..20 read in order, each slot with a non-blank
      ingredient name pushed as `{ name, measure }` (the measure as stored);
      when none qualifies the editor starts with one empty row. */
  method LoadIngredients(data: Record) returns (rows: seq<Row>)
    ensures Decode(data) != [] ==> rows == Decode(data)
    ensures Decode(data) == [] ==> rows == [EmptyRow]
  {
    var loaded: seq<Row> := [];
    var i := 1;
    while i <= SlotCount
      invariant 1 <= i <= SlotCount + 1
      invariant loaded == DecodeUpTo(data, i - 1)
    {
      var name := Get(data, IngredientSlot(i));
      var measure := Get(data, MeasureSlot(i));
      if name.Str? && !IsBlank(name.s) {
        loaded := loaded + [Row(name.s, measure)];
      }
      i := i + 1;
    }
    rows := if |loaded| > 0 then loaded else [EmptyRow];
  }

  /** A loaded list holds at most 20 rows, each with a non-blank name. */
  lemma LoadedRowsAreNonBlank(data: Record)
    ensures |Decode(data)| <= SlotCount
    ensures forall k :: 0 <= k < |Decode(data)| ==> !IsBlank(Decode(data)[k].name)
  {
    DecodeReadsQualifyingSlots(data);
    DecodedNamesAreNonBlank(data, SlotCount);
  }

  /** The form fields filled from the stored record: five copied as they are,
      `cookingTime` and `servings` defaulting to `''` and `difficulty` to
      `'Easy'` when falsy. */
  function LoadForm(data: Record): (form: Record)
    ensures form.Keys == {StrMeal, StrMealThumb, StrCategory, StrInstructions, StrYoutube, CookingTime, Servings, Difficulty}
    ensures forall k :: k in {StrMeal, StrMealThumb, StrCategory, StrInstructions, StrYoutube} ==> form[k] == Get(data, k)
    ensures form[CookingTime] == (if Truthy(Get(data, CookingTime)) then Get(data, CookingTime) else Str(""))
    ensures form[Servings] == (if Truthy(Get(data, Servings)) then Get(data, Servings) else Str(""))
    ensures form[Difficulty] == (if Truthy(Get(data, Difficulty)) then Get(data, Difficulty) else Str("Easy"))
  {
    map[StrMeal := Get(data, StrMeal),
        StrMealThumb := Get(data, StrMealThumb),
        StrCategory := Get(data, StrCategory),
        StrInstructions := Get(data, StrInstructions),
        StrYoutube := Get(data, StrYoutube),
        CookingTime := OrDefault(Get(data, CookingTime), ""),
        Servings := OrDefault(Get(data, Servings), ""),
        Difficulty := OrDefault(Get(data, Difficulty), "Easy")]
  }

  /** `v || fallback`. */
  function OrDefault(v: Value, fallback: string): Value {
    if Truthy(v) then v else Str(fallback)
  }

  /** The submit encoder: all 20 slot pairs set to `""`, then each row with a
      non-blank name written to slot `index + 1`, in list order. */
  method EncodeForUpdate(rows: seq<Row>) returns (ingredientMap: Record)
    ensures ingredientMap == UpdateSlots(rows)
  {
    ingredientMap := map[];
    var i := 1;
    while i <= SlotCount
      invariant 1 <= i <= SlotCount + 1
      invariant ingredientMap == BlankSlots(i - 1)
    {
      ingredientMap := ingredientMap[IngredientSlot(i) := Str("")][MeasureSlot(i) := Str("")];
      i := i + 1;
    }
    ghost var cleared := ingredientMap;
    var j := 0;
    while j < |rows|
      invariant 0 <= j <= |rows|
      invariant ingredientMap == cleared + SparseSlots(rows[..j])
    {
      WriteRowOver(cleared, rows, j);
      if !IsBlank(rows[j].name) {
        ingredientMap := ingredientMap[IngredientSlot(j + 1) := Str(rows[j].name)][MeasureSlot(j + 1) := rows[j].measure];
      }
      j := j + 1;
    }
    assert rows[..|rows|] == rows;
  }

  /** One step of the second loop: writing row `j` over the cleared map. */
  lemma WriteRowOver(cleared: Record, rows: seq<Row>, j: nat)
    requires j < |rows|
    ensures IsBlank(rows[j].name) ==> cleared + SparseSlots(rows[..j + 1]) == cleared + SparseSlots(rows[..j])
    ensures !IsBlank(rows[j].name) ==>
              cleared + SparseSlots(rows[..j + 1])
              == (cleared + SparseSlots(rows[..j]))[IngredientSlot(j + 1) := Str(rows[j].name)][MeasureSlot(j + 1) := rows[j].measure]
  {
    assert rows[..j + 1][..j] == rows[..j];
  }

  /** `{ ...formData, ...ingredientMap }`. */
  function UpdatePayload(form: Record, ingredientMap: Record): Record {
    form + ingredientMap
  }

  /** In the payload every slot key comes from the ingredient map, over any
      same-named form field, and every other form field is kept. */
  lemma IngredientKeysOverrideForm(form: Record, rows: seq<Row>)
    ensures forall n: nat :: 1 <= n <= SlotCount ==>
              Get(UpdatePayload(form, UpdateSlots(rows)), IngredientSlot(n))
                == (if Kept(rows, n) then Str(rows[n - 1].name) else Str(""))
              && Get(UpdatePayload(form, UpdateSlots(rows)), MeasureSlot(n))
                == (if Kept(rows, n) then rows[n - 1].measure else Str(""))
    ensures forall name :: Field(name) in form ==>
              Field(name) in UpdatePayload(form, UpdateSlots(rows))
              && UpdatePayload(form, UpdateSlots(rows))[Field(name)] == form[Field(name)]
  {
    UpdateSlotsCoverEverySlot(rows);
  }

  /** Clearing: whatever the stored record held, once the update is merged
      over it (`updateDoc` replaces the fields it names), reloading yields the
      non-blank rows among the first 20 of the submitted list. A list that
      shrank from five ingredients to three leaves no fourth or fifth behind. */
  lemma UpdateClearsStaleSlots(stored: Record, form: Record, rows: seq<Row>)
    ensures Decode(stored + UpdatePayload(form, UpdateSlots(rows))) == NonBlank(rows[..Min(SlotCount, |rows|)])
    ensures |rows| <= SlotCount ==>
              forall n: nat :: |rows| < n <= SlotCount ==>
                Get(stored + UpdatePayload(form, UpdateSlots(rows)), IngredientSlot(n)) == Str("")
                && Get(stored + UpdatePayload(form, UpdateSlots(rows)), MeasureSlot(n)) == Str("")
  {
    var written := stored + UpdatePayload(form, UpdateSlots(rows));
    UpdateSlotsCoverEverySlot(rows);
    DecodeUpToReadsOnlySlots(written, UpdateSlots(rows), SlotCount);
    DecodeUpdateSlots(rows);
  }

  /** Round trip through the editor: a list of at most 20 rows with non-blank
      names, saved and reloaded, comes back unchanged. */
  lemma SaveThenLoad(stored: Record, form: Record, rows: seq<Row>)
    requires |rows| <= SlotCount
    requires forall k :: 0 <= k < |rows| ==> !IsBlank(rows[k].name)
    ensures Decode(stored + UpdatePayload(form, UpdateSlots(rows))) == rows
  {
    UpdateClearsStaleSlots(stored, form, rows);
    assert rows[..|rows|] == rows;
    NonBlankOfNonBlankRows(rows);
  }
}

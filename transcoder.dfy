/** The ingredient transcoder: between the editor's ordered list of
    `{name, measure}` rows and the 20 numbered slot pairs
    (`strIngredient{i}`, `strMeasure{i}`) of TheMealDB's flat recipe schema.

    Reading (`Decode`) walks slots 1..20 and keeps, in slot order, the slots
    whose ingredient name is a non-blank string. Writing is position based:
    row `i` (from 0) goes to slot `i + 1`, a blank-named row leaves its slot
    unwritten, and nothing is compacted. `SparseSlots` writes only the kept
    slots (recipe creation); `UpdateSlots` first blanks all 20 slot pairs so
    that an update erases what a shorter list no longer holds. The writers do
    not stop at slot 20, while the reader never looks past it. */
module Transcoder {
  import opened Text
  import opened Records

  /** The number of ingredient slots of the flat schema. */
  const SlotCount: nat := 20

  /** One row of the ingredient list. The measure is kept as the value it was
      read or typed as. */
  datatype Row = Row(name: string, measure: Value)

  /** The row the editors add: `{ name: '', measure: '' }`. */
  const EmptyRow: Row := Row("", Str(""))

  // ---------------------------------------------------------------------
  // Reading slots 1..20

  /** Slot `i` holds an ingredient: its name is a non-blank string
      (`name && name.trim() !== ""`). */
  predicate Qualifies(r: Record, i: nat) {
    var name := Get(r, IngredientSlot(i));
    name.Str? && !IsBlank(name.s)
  }

  function RowOf(r: Record, i: nat): Row
    requires Qualifies(r, i)
  {
    Row(Get(r, IngredientSlot(i)).s, Get(r, MeasureSlot(i)))
  }

  /** What slot `i` contributes to the list: its row, or nothing. */
  function SlotRow(r: Record, i: nat): seq<Row> {
    if Qualifies(r, i) then [RowOf(r, i)] else []
  }

  /** The rows read from slots 1..n, in ascending slot order. */
  function DecodeUpTo(r: Record, n: nat): seq<Row> {
    if n == 0 then [] else DecodeUpTo(r, n - 1) + SlotRow(r, n)
  }

  /** The ingredient list a record holds: slots 1..20. */
  function Decode(r: Record): seq<Row> {
    DecodeUpTo(r, SlotCount)
  }

  /** The slots among 1..n that hold an ingredient, ascending. */
  function QualifyingSlots(r: Record, n: nat): seq<nat> {
    if n == 0 then [] else QualifyingSlots(r, n - 1) + (if Qualifies(r, n) then [n] else [])
  }

  /** Reading slots 1..n yields exactly one row per qualifying slot, in
      ascending slot order, and skips every other slot. */
  lemma {:induction false} DecodeUpToReadsQualifyingSlots(r: Record, n: nat)
    ensures |DecodeUpTo(r, n)| == |QualifyingSlots(r, n)|
    ensures forall k :: 0 <= k < |QualifyingSlots(r, n)| ==>
              1 <= QualifyingSlots(r, n)[k] <= n && Qualifies(r, QualifyingSlots(r, n)[k])
              && DecodeUpTo(r, n)[k] == RowOf(r, QualifyingSlots(r, n)[k])
    ensures forall k, l :: 0 <= k < l < |QualifyingSlots(r, n)| ==> QualifyingSlots(r, n)[k] < QualifyingSlots(r, n)[l]
    ensures forall i :: 1 <= i <= n ==> (i in QualifyingSlots(r, n) <==> Qualifies(r, i))
  {
    if n > 0 {
      DecodeUpToReadsQualifyingSlots(r, n - 1);
    }
  }

  /** The loaded list holds exactly the slots 1..20 whose name is non-blank,
      in ascending slot order: hence never more than 20 rows. */
  lemma DecodeReadsQualifyingSlots(r: Record)
    ensures |Decode(r)| == |QualifyingSlots(r, SlotCount)| <= SlotCount
    ensures forall k :: 0 <= k < |Decode(r)| ==>
              1 <= QualifyingSlots(r, SlotCount)[k] <= SlotCount && Qualifies(r, QualifyingSlots(r, SlotCount)[k])
              && Decode(r)[k] == RowOf(r, QualifyingSlots(r, SlotCount)[k])
    ensures forall k, l :: 0 <= k < l < |Decode(r)| ==> QualifyingSlots(r, SlotCount)[k] < QualifyingSlots(r, SlotCount)[l]
    ensures forall i :: 1 <= i <= SlotCount ==> (i in QualifyingSlots(r, SlotCount) <==> Qualifies(r, i))
  {
    DecodeUpToReadsQualifyingSlots(r, SlotCount);
    AscendingSlotsAreFew(QualifyingSlots(r, SlotCount), SlotCount);
  }

  /** A strictly ascending sequence of numbers in 1..n has at most n elements. */
  lemma {:induction false} AscendingSlotsAreFew(s: seq<nat>, n: nat)
    requires forall k :: 0 <= k < |s| ==> 1 <= s[k] <= n
    requires forall k, l :: 0 <= k < l < |s| ==> s[k] < s[l]
    ensures |s| <= n
    decreases n
  {
    if s != [] {
      var last := s[|s| - 1];
      assert forall k :: 0 <= k < |s| - 1 ==> s[k] < last;
      AscendingSlotsAreFew(s[..|s| - 1], last - 1);
    }
  }

  /** Every row read back has a non-blank name. */
  lemma {:induction false} DecodedNamesAreNonBlank(r: Record, n: nat)
    ensures forall k :: 0 <= k < |DecodeUpTo(r, n)| ==> !IsBlank(DecodeUpTo(r, n)[k].name)
  {
    if n > 0 {
      DecodedNamesAreNonBlank(r, n - 1);
    }
  }

  /** Only slots 1..n are read: records that agree on those slot pairs read
      the same list. */
  lemma {:induction false} DecodeUpToReadsOnlySlots(r1: Record, r2: Record, n: nat)
    requires forall i :: 1 <= i <= n ==>
               Get(r1, IngredientSlot(i)) == Get(r2, IngredientSlot(i)) && Get(r1, MeasureSlot(i)) == Get(r2, MeasureSlot(i))
    ensures DecodeUpTo(r1, n) == DecodeUpTo(r2, n)
  {
    if n > 0 {
      DecodeUpToReadsOnlySlots(r1, r2, n - 1);
      assert SlotRow(r1, n) == SlotRow(r2, n);
    }
  }

  // ---------------------------------------------------------------------
  // Writing rows into slots

  /** Row `n - 1` is written to slot `n`: it exists and its name is non-blank
      (`ing.name.trim()` is truthy). */
  predicate Kept(rows: seq<Row>, n: nat) {
    1 <= n <= |rows| && !IsBlank(rows[n - 1].name)
  }

  /** The keys the creation encoder writes, row by row in list order: slot
      `i + 1` gets row `i`'s name and measure when that name is non-blank. */
  function SparseSlots(rows: seq<Row>): Record
    decreases |rows|
  {
    if rows == [] then map[]
    else
      var n := |rows|;
      var m := SparseSlots(rows[..n - 1]);
      if IsBlank(rows[n - 1].name) then m
      else m[IngredientSlot(n) := Str(rows[n - 1].name)][MeasureSlot(n) := rows[n - 1].measure]
  }

  /** The sparse map has a key exactly for the kept positions, both the name
      and the measure key, filled from the same row; no other key. */
  lemma {:induction false} SparseSlotsHoldKeptRows(rows: seq<Row>)
    ensures forall n: nat :: IngredientSlot(n) in SparseSlots(rows) <==> Kept(rows, n)
    ensures forall n: nat :: MeasureSlot(n) in SparseSlots(rows) <==> Kept(rows, n)
    ensures forall name :: Field(name) !in SparseSlots(rows)
    ensures forall n :: Kept(rows, n) ==>
              IngredientSlot(n) in SparseSlots(rows) && SparseSlots(rows)[IngredientSlot(n)] == Str(rows[n - 1].name)
              && MeasureSlot(n) in SparseSlots(rows) && SparseSlots(rows)[MeasureSlot(n)] == rows[n - 1].measure
    decreases |rows|
  {
    if rows != [] {
      var last := |rows|;
      var init := rows[..last - 1];
      SparseSlotsHoldKeptRows(init);
      assert forall n :: n != last ==> (Kept(rows, n) <==> Kept(init, n));
    }
  }

  /** All 20 slot pairs set to the empty string. */
  function BlankSlots(n: nat): Record {
    if n == 0 then map[]
    else BlankSlots(n - 1)[IngredientSlot(n) := Str("")][MeasureSlot(n) := Str("")]
  }

  lemma {:induction false} BlankSlotsExactly(n: nat)
    ensures forall i: nat :: IngredientSlot(i) in BlankSlots(n) <==> 1 <= i <= n
    ensures forall i: nat :: MeasureSlot(i) in BlankSlots(n) <==> 1 <= i <= n
    ensures forall name :: Field(name) !in BlankSlots(n)
    ensures forall k :: k in BlankSlots(n) ==> BlankSlots(n)[k] == Str("")
  {
    if n > 0 {
      BlankSlotsExactly(n - 1);
    }
  }

  /** The keys the update encoder writes: all 40 slot keys blanked, then the
      kept rows written over them. */
  function UpdateSlots(rows: seq<Row>): Record {
    BlankSlots(SlotCount) + SparseSlots(rows)
  }

  /** The update map always holds all 20 ingredient and all 20 measure keys; a
      slot that no kept row fills is `""`; a kept row at position `n - 1` fills
      slot `n`, name and measure; beyond slot 20 only kept rows have keys. */
  lemma UpdateSlotsCoverEverySlot(rows: seq<Row>)
    ensures forall n :: 1 <= n <= SlotCount ==>
              IngredientSlot(n) in UpdateSlots(rows) && MeasureSlot(n) in UpdateSlots(rows)
    ensures forall n :: 1 <= n <= SlotCount && !Kept(rows, n) ==>
              IngredientSlot(n) in UpdateSlots(rows) && MeasureSlot(n) in UpdateSlots(rows) &&
              UpdateSlots(rows)[IngredientSlot(n)] == Str("") && UpdateSlots(rows)[MeasureSlot(n)] == Str("")
    ensures forall n :: Kept(rows, n) ==>
              IngredientSlot(n) in UpdateSlots(rows) && UpdateSlots(rows)[IngredientSlot(n)] == Str(rows[n - 1].name)
              && MeasureSlot(n) in UpdateSlots(rows) && UpdateSlots(rows)[MeasureSlot(n)] == rows[n - 1].measure
    ensures forall n: nat :: IngredientSlot(n) in UpdateSlots(rows) <==> 1 <= n <= SlotCount || Kept(rows, n)
    ensures forall n: nat :: MeasureSlot(n) in UpdateSlots(rows) <==> 1 <= n <= SlotCount || Kept(rows, n)
    ensures forall name :: Field(name) !in UpdateSlots(rows)
  {
    BlankSlotsExactly(SlotCount);
    SparseSlotsHoldKeptRows(rows);
  }

  /** The rows with a non-blank name, in list order: what a list turns into
      once written and read back. */
  function NonBlank(rows: seq<Row>): seq<Row>
    decreases |rows|
  {
    if rows == [] then []
    else NonBlank(rows[..|rows| - 1]) + (if IsBlank(rows[|rows| - 1].name) then [] else [rows[|rows| - 1]])
  }

  lemma {:induction false} NonBlankOfNonBlankRows(rows: seq<Row>)
    requires forall k :: 0 <= k < |rows| ==> !IsBlank(rows[k].name)
    ensures NonBlank(rows) == rows
    decreases |rows|
  {
    if rows != [] {
      NonBlankOfNonBlankRows(rows[..|rows| - 1]);
      assert rows[..|rows| - 1] + [rows[|rows| - 1]] == rows;
    }
  }

  /** What slot `i` of a faithful encoding of `rows` reads back as. */
  function ExpectedSlotRow(rows: seq<Row>, i: nat): seq<Row> {
    if Kept(rows, i) then [rows[i - 1]] else []
  }

  /** Reading a record whose slots 1..n each read back as the encoding of
      `rows` prescribes yields the non-blank rows among the first n. */
  lemma {:induction false} DecodeUpToOfEncoding(r: Record, rows: seq<Row>, n: nat)
    requires forall i :: 1 <= i <= n ==> SlotRow(r, i) == ExpectedSlotRow(rows, i)
    ensures DecodeUpTo(r, n) == NonBlank(rows[..Min(n, |rows|)])
  {
    if n > 0 {
      DecodeUpToOfEncoding(r, rows, n - 1);
      if n <= |rows| {
        assert rows[..n][..n - 1] == rows[..n - 1];
      }
    }
  }

  /** Slot by slot, both encodings read back as `ExpectedSlotRow` prescribes. */
  lemma SlotsReadBackAsRows(rows: seq<Row>)
    ensures forall i :: 1 <= i <= SlotCount ==> SlotRow(UpdateSlots(rows), i) == ExpectedSlotRow(rows, i)
    ensures forall i :: 1 <= i ==> SlotRow(SparseSlots(rows), i) == ExpectedSlotRow(rows, i)
  {
    UpdateSlotsCoverEverySlot(rows);
    SparseSlotsHoldKeptRows(rows);
    forall i | 1 <= i
      ensures SlotRow(SparseSlots(rows), i) == ExpectedSlotRow(rows, i)
    {
      if Kept(rows, i) {
        assert RowOf(SparseSlots(rows), i) == rows[i - 1];
      }
    }
    forall i | 1 <= i <= SlotCount
      ensures SlotRow(UpdateSlots(rows), i) == ExpectedSlotRow(rows, i)
    {
      if Kept(rows, i) {
        assert RowOf(UpdateSlots(rows), i) == rows[i - 1];
      } else {
        assert IsBlank("");
      }
    }
  }

  /** Loading what the update encoder wrote gives back the non-blank rows
      among the first 20, in order. */
  lemma DecodeUpdateSlots(rows: seq<Row>)
    ensures Decode(UpdateSlots(rows)) == NonBlank(rows[..Min(SlotCount, |rows|)])
  {
    SlotsReadBackAsRows(rows);
    DecodeUpToOfEncoding(UpdateSlots(rows), rows, SlotCount);
  }

  /** Loading what the creation encoder wrote gives back the non-blank rows
      among the first 20, in order: blank rows leave gaps in the slots, and
      the reader closes them. */
  lemma DecodeSparseSlots(rows: seq<Row>)
    ensures Decode(SparseSlots(rows)) == NonBlank(rows[..Min(SlotCount, |rows|)])
  {
    SlotsReadBackAsRows(rows);
    DecodeUpToOfEncoding(SparseSlots(rows), rows, SlotCount);
  }

  /** Round trip: a list of at most 20 rows, all with non-blank names, is read
      back unchanged from either encoding. */
  lemma RoundTrip(rows: seq<Row>)
    requires |rows| <= SlotCount
    requires forall k :: 0 <= k < |rows| ==> !IsBlank(rows[k].name)
    ensures Decode(UpdateSlots(rows)) == rows
    ensures Decode(SparseSlots(rows)) == rows
  {
    DecodeUpdateSlots(rows);
    DecodeSparseSlots(rows);
    assert rows[..|rows|] == rows;
    NonBlankOfNonBlankRows(rows);
  }

  /** Past slot 20 the writers keep writing (`strIngredient21`, ...) but the
      reader stops: a list of more than 20 non-blank rows is written whole and
      read back cut to its first 20. */
  lemma OverflowIsWrittenButNotRead(rows: seq<Row>)
    requires |rows| > SlotCount
    requires forall k :: 0 <= k < |rows| ==> !IsBlank(rows[k].name)
    ensures forall n :: SlotCount < n <= |rows| ==>
              IngredientSlot(n) in UpdateSlots(rows) && IngredientSlot(n) in SparseSlots(rows)
    ensures Decode(UpdateSlots(rows)) == rows[..SlotCount] != rows
    ensures Decode(SparseSlots(rows)) == rows[..SlotCount]
  {
    OverflowIsWritten(rows);
    OverflowIsNotRead(rows);
  }

  lemma OverflowIsWritten(rows: seq<Row>)
    requires forall k :: 0 <= k < |rows| ==> !IsBlank(rows[k].name)
    ensures forall n :: SlotCount < n <= |rows| ==>
              IngredientSlot(n) in UpdateSlots(rows) && IngredientSlot(n) in SparseSlots(rows)
  {
    SparseSlotsHoldKeptRows(rows);
    forall n | SlotCount < n <= |rows|
      ensures IngredientSlot(n) in UpdateSlots(rows) && IngredientSlot(n) in SparseSlots(rows)
    {
      assert Kept(rows, n);
    }
  }

  lemma OverflowIsNotRead(rows: seq<Row>)
    requires |rows| > SlotCount
    requires forall k :: 0 <= k < |rows| ==> !IsBlank(rows[k].name)
    ensures Decode(UpdateSlots(rows)) == rows[..SlotCount] != rows
    ensures Decode(SparseSlots(rows)) == rows[..SlotCount]
  {
    DecodeUpdateSlots(rows);
    DecodeSparseSlots(rows);
    NonBlankOfNonBlankRows(rows[..SlotCount]);
    assert |rows[..SlotCount]| < |rows|;
  }

  // ---------------------------------------------------------------------
  // Editing the list (both editors)

  /** `addIngredient`: one empty row appended, the others kept. */
  function AddRow(rows: seq<Row>): (r: seq<Row>)
    ensures |r| == |rows| + 1 && r[..|rows|] == rows && r[|rows|] == EmptyRow
  {
    rows + [EmptyRow]
  }

  /** `removeIngredient(index)`: `rows.filter((_, i) => i !== index)`. */
  function RemoveRow(rows: seq<Row>, index: int): (r: seq<Row>)
    ensures 0 <= index < |rows| ==> |r| == |rows| - 1
    ensures 0 <= index < |rows| ==> forall j :: 0 <= j < |r| ==> r[j] == rows[if j < index then j else j + 1]
    ensures !(0 <= index < |rows|) ==> r == rows
    decreases |rows|
  {
    if rows == [] then []
    else (if index == 0 then [] else [rows[0]]) + RemoveRow(rows[1..], index - 1)
  }

  /** The two inputs of an ingredient row. */
  datatype RowField = NameField | MeasureField

  /** `handleIngredientChange(index, field, value)`: the row at `index` of the
      copied list gets the typed value in the named field; every other row,
      and the other field, are untouched. */
  method ChangeIngredient(rows: array<Row>, index: int, field: RowField, value: string)
    requires 0 <= index < rows.Length
    modifies rows
    ensures forall j :: 0 <= j < rows.Length && j != index ==> rows[j] == old(rows[j])
    ensures field.NameField? ==> rows[index] == old(rows[index]).(name := value)
    ensures field.MeasureField? ==> rows[index] == old(rows[index]).(measure := Str(value))
  {
    match field
    case NameField => rows[index] := rows[index].(name := value);
    case MeasureField => rows[index] := rows[index].(measure := Str(value));
  }
}

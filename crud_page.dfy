/** The CRUD page's form logic: parsing the comma-separated sub-breeds field, the edit-mode
    flags `isEditing` / `currentEditId`, and the submit, edit and delete handlers, over the
    saved-breed store. The input fields are modelled as strings. */
module CrudPage {
  import opened Wrappers
  import opened Seqs
  import opened Text
  import opened BreedStore

  predicate NonEmpty(s: string) { |s| > 0 }

  /** A sub-breed the parser can return: non-empty, trimmed and without a comma. */
  predicate CleanSubBreed(s: string)
  {
    s != [] && IsTrimmed(s) && ',' !in s
  }

  /** The sub-breeds field after `trim()`: blank gives `[]`; otherwise split on `,`, trim
      every piece and drop the empty ones. */
  function ParseSubBreeds(text: string): (r: seq<string>)
    ensures forall k :: 0 <= k < |r| ==> CleanSubBreed(r[k])
    ensures Trim(text) == [] ==> r == []
  {
    var t := Trim(text);
    if t == [] then []
    else
      var pieces := Map(Trim, Split(t, ','));
      PiecesClean(t);
      var r := Filter(NonEmpty, pieces);
      assert forall k :: 0 <= k < |r| ==> r[k] in r;
      r
  }

  lemma {:induction false} PiecesClean(t: string)
    ensures forall x :: x in Map(Trim, Split(t, ',')) ==> IsTrimmed(x) && ',' !in x
  {
    var parts := Split(t, ',');
    forall k | 0 <= k < |parts| ensures ',' !in Map(Trim, parts)[k] {
      TrimKeepsOut(parts[k], ',');
    }
  }

  function AddSpace(x: string): string { " " + x }

  lemma {:induction false} JoinSpaced(ys: seq<string>)
    requires |ys| >= 1
    ensures Join(Map(AddSpace, ys), ",") == " " + Join(ys, ", ")
  {
    if |ys| > 1 {
      JoinSpaced(ys[1..]);
      assert Map(AddSpace, ys)[1..] == Map(AddSpace, ys[1..]);
      calc {
        Join(Map(AddSpace, ys), ",");
        " " + ys[0] + "," + Join(Map(AddSpace, ys[1..]), ",");
        " " + ys[0] + "," + (" " + Join(ys[1..], ", "));
        " " + (ys[0] + ", " + Join(ys[1..], ", "));
      }
    }
  }

  lemma {:induction false} JoinEnds(xs: seq<string>, sep: string)
    requires |xs| >= 1 && forall k :: 0 <= k < |xs| ==> xs[k] != []
    ensures Join(xs, sep) != []
    ensures Join(xs, sep)[0] == xs[0][0]
    ensures Join(xs, sep)[|Join(xs, sep)| - 1] == xs[|xs| - 1][|xs[|xs| - 1]| - 1]
  {
    if |xs| > 1 {
      JoinEnds(xs[1..], sep);
      var j := Join(xs, sep);
      assert j == xs[0] + sep + Join(xs[1..], sep);
    }
  }

  /** The pieces `split(',')` finds in a list joined with `", "`: the first element, then
      every other element with its leading space. */
  function SpacedParts(xs: seq<string>): (r: seq<string>)
    requires |xs| >= 1
    ensures |r| == |xs|
  {
    [xs[0]] + Map(AddSpace, xs[1..])
  }

  lemma {:induction false} CommaSpace(x: string, j: string)
    ensures x + [','] + ([' '] + j) == x + ", " + j
  {
  }

  lemma {:induction false} JoinSpacedParts(xs: seq<string>)
    requires |xs| >= 1
    ensures Join(SpacedParts(xs), ",") == Join(xs, ", ")
  {
    var parts := SpacedParts(xs);
    if |xs| > 1 {
      var j := Join(xs[1..], ", ");
      JoinSpaced(xs[1..]);
      assert parts[1..] == Map(AddSpace, xs[1..]);
      assert Join(parts, ",") == parts[0] + "," + Join(parts[1..], ",");
      assert Join(xs, ", ") == xs[0] + ", " + j;
      assert Join(parts, ",") == xs[0] + [','] + ([' '] + j);
      CommaSpace(xs[0], j);
    } else {
      assert Join(parts, ",") == parts[0];
    }
  }

  lemma {:induction false} TrimSpacedParts(xs: seq<string>)
    requires |xs| >= 1
    requires forall k :: 0 <= k < |xs| ==> IsTrimmed(xs[k]) && ',' !in xs[k]
    ensures Map(Trim, SpacedParts(xs)) == xs
    ensures forall k :: 0 <= k < |xs| ==> ',' !in SpacedParts(xs)[k]
  {
    forall k | 0 <= k < |xs| ensures Trim(SpacedParts(xs)[k]) == xs[k] && ',' !in SpacedParts(xs)[k] {
      TrimSpacedPart(xs, k);
    }
    MapPointwise(Trim, SpacedParts(xs), xs);
  }

  lemma {:induction false} TrimSpacedPart(xs: seq<string>, k: nat)
    requires k < |xs| && IsTrimmed(xs[k]) && ',' !in xs[k]
    ensures Trim(SpacedParts(xs)[k]) == xs[k] && ',' !in SpacedParts(xs)[k]
  {
    if k == 0 {
      TrimTrimmed(xs[0]);
    } else {
      assert SpacedParts(xs)[k] == [' '] + xs[k];
      TrimAfterSpace(xs[k]);
    }
  }

  lemma {:induction false} JoinIsTrimmed(xs: seq<string>)
    requires |xs| >= 1
    requires forall k :: 0 <= k < |xs| ==> xs[k] != [] && IsTrimmed(xs[k])
    ensures Join(xs, ", ") != [] && IsTrimmed(Join(xs, ", "))
  {
    var j := Join(xs, ", ");
    var first, last := xs[0], xs[|xs| - 1];
    JoinEnds(xs, ", ");
    assert IsTrimmed(first) && IsTrimmed(last);
    assert j[0] == first[0] && j[|j| - 1] == last[|last| - 1];
  }

  lemma {:induction false} JoinTrimmed(xs: seq<string>)
    requires |xs| >= 1
    requires forall k :: 0 <= k < |xs| ==> xs[k] != [] && IsTrimmed(xs[k])
    ensures Join(xs, ", ") != [] && Trim(Join(xs, ", ")) == Join(xs, ", ")
  {
    JoinIsTrimmed(xs);
    TrimTrimmed(Join(xs, ", "));
  }

  lemma {:induction false} SplitJoined(xs: seq<string>)
    requires |xs| >= 1
    requires forall k :: 0 <= k < |xs| ==> IsTrimmed(xs[k]) && ',' !in xs[k]
    ensures Map(Trim, Split(Join(xs, ", "), ',')) == xs
  {
    JoinSpacedParts(xs);
    TrimSpacedParts(xs);
    SplitJoin(SpacedParts(xs), ',');
  }

  lemma {:induction false} KeepNonEmpty(xs: seq<string>)
    requires forall k :: 0 <= k < |xs| ==> xs[k] != []
    ensures Filter(NonEmpty, xs) == xs
  {
    forall x | x in xs ensures NonEmpty(x) {
      var k :| 0 <= k < |xs| && xs[k] == x;
    }
    FilterKeepsLength(NonEmpty, xs);
  }

  /** The text `startEdit` writes into the sub-breeds field, `subBreeds.join(', ')`, parses
      back to the same list when every sub-breed is non-empty, trimmed and comma-free. */
  lemma {:induction false} ParseJoinRoundTrip(xs: seq<string>)
    requires forall k :: 0 <= k < |xs| ==> CleanSubBreed(xs[k])
    ensures ParseSubBreeds(Join(xs, ", ")) == xs
  {
    if xs != [] {
      JoinTrimmed(xs);
      SplitJoined(xs);
      KeepNonEmpty(xs);
    }
  }

  /** The stored value after the submit's `updateBreed(id, {breed, subBreeds})` on the list
      `saved`: untouched when no record has the id, otherwise the first such record merged. */
  ghost predicate Updated(saved: seq<SavedBreed>, id: string, breed: string, subBreeds: seq<string>,
                          before: Option<seq<SavedBreed>>, after: Option<seq<SavedBreed>>)
  {
    if HasId(saved, id) then
      var i := FindIndex(saved, id);
      after == Some(saved[i := Merge(saved[i], BreedUpdate(Some(breed), Some(subBreeds)))])
    else after == before
  }

  /** The page: its edit-mode flags, the three input fields it reads and writes, and the
      store it works on. */
  class Page {
    const store: Storage
    var isEditing: bool
    var currentEditId: Option<string>
    var breedIdText: string
    var breedNameText: string
    var subBreedsText: string

    constructor (store: Storage)
      ensures this.store == store && Cleared()
    {
      this.store := store;
      isEditing := false;
      currentEditId := None;
      breedIdText := "";
      breedNameText := "";
      subBreedsText := "";
    }

    /** The state `resetForm` leaves: not editing, no id, empty fields. */
    predicate Cleared()
      reads this
    {
      !isEditing && currentEditId == None && breedIdText == "" && breedNameText == "" &&
      subBreedsText == ""
    }

    /** `isEditing && currentEditId` as a JavaScript condition: the id to update, if any
        (`null` and the empty string are both false). */
    function EditTarget(): Option<string>
      reads this
    {
      if isEditing && currentEditId.Some? && currentEditId.value != "" then currentEditId else None
    }

    /** `resetForm`: the form fields return to their (empty) defaults and edit mode ends. */
    method ResetForm()
      modifies this
      ensures Cleared()
      ensures EditTarget() == None
    {
      breedIdText := "";
      breedNameText := "";
      subBreedsText := "";
      isEditing := false;
      currentEditId := None;
    }

    /** `startEdit(breed)`: enter edit mode for the record and fill the fields from it. */
    method StartEdit(breed: SavedBreed)
      modifies this
      ensures isEditing && currentEditId == Some(breed.id)
      ensures breedIdText == breed.id && breedNameText == breed.breed
      ensures subBreedsText == Join(breed.subBreeds, ", ")
      ensures EditTarget() == if breed.id != "" then Some(breed.id) else None
    {
      isEditing := true;
      currentEditId := Some(breed.id);
      breedIdText := breed.id;
      breedNameText := breed.breed;
      subBreedsText := Join(breed.subBreeds, ", ");
    }

    /** The edit button: read the record again and start editing it when it still exists. */
    method EditClicked(id: string)
      modifies this
      ensures !HasId(store.GetAllSavedBreeds(), id) ==> unchanged(this)
      ensures HasId(store.GetAllSavedBreeds(), id) ==>
        isEditing && currentEditId == Some(id) && breedIdText == id &&
        breedNameText == store.ReadBreed(id).value.breed &&
        subBreedsText == Join(store.ReadBreed(id).value.subBreeds, ", ")
    {
      var breedToEdit := store.ReadBreed(id);
      if breedToEdit.Some? {
        StartEdit(breedToEdit.value);
      }
    }

    /** `handleFormSubmit`, with `newId` the id a creation would draw. A blank name aborts.
        Otherwise, in edit mode with an id, the record is updated (and the form reset only if
        the update found it); outside edit mode a new record is created and the form reset. */
    method HandleFormSubmit(newId: string)
      modifies this, store
      ensures Trim(old(breedNameText)) == [] ==> unchanged(this) && unchanged(store)
      ensures Trim(old(breedNameText)) != [] && old(EditTarget()) == None ==>
        store.item == Some(old(store.GetAllSavedBreeds()) +
          [SavedBreed(newId, Trim(old(breedNameText)), ParseSubBreeds(old(subBreedsText)))]) &&
        Cleared()
      ensures Trim(old(breedNameText)) != [] && old(EditTarget()).Some? ==>
        Updated(old(store.GetAllSavedBreeds()), old(EditTarget()).value,
          Trim(old(breedNameText)), ParseSubBreeds(old(subBreedsText)), old(store.item), store.item) &&
        if old(HasId(store.GetAllSavedBreeds(), EditTarget().value)) then Cleared() else unchanged(this)
    {
      var breedName := Trim(breedNameText);
      if breedName == [] {
        return;
      }
      var subBreeds := ParseSubBreeds(subBreedsText);
      if isEditing && currentEditId.Some? && currentEditId.value != "" {
        SubmitUpdate(currentEditId.value, breedName, subBreeds);
      } else {
        SubmitCreate(newId, breedName, subBreeds);
      }
    }

    /** The create branch of the submit: append the new record and reset the form. */
    method SubmitCreate(newId: string, breedName: string, subBreeds: seq<string>)
      modifies this, store
      ensures store.item == Some(old(store.GetAllSavedBreeds()) + [SavedBreed(newId, breedName, subBreeds)])
      ensures Cleared()
    {
      var created := store.CreateBreed(newId, breedName, subBreeds);
      ResetForm();
    }

    /** The edit branch of the submit: update, and reset the form when the record was found. */
    method SubmitUpdate(id: string, breedName: string, subBreeds: seq<string>)
      modifies this, store
      ensures Updated(old(store.GetAllSavedBreeds()), id, breedName, subBreeds, old(store.item), store.item)
      ensures if old(HasId(store.GetAllSavedBreeds(), id)) then Cleared() else unchanged(this)
    {
      var updated := store.UpdateBreed(id, BreedUpdate(Some(breedName), Some(subBreeds)));
      if updated.Some? {
        ResetForm();
      }
    }

    /** `handleDelete(id, name)`, with `confirmed` the answer to the confirmation dialog.
        A successful delete of the record being edited resets the form; any other delete
        leaves edit mode as it was. */
    method HandleDelete(id: string, confirmed: bool) returns (deleted: bool)
      modifies this, store
      ensures !confirmed ==> !deleted && unchanged(this) && unchanged(store)
      ensures confirmed ==> deleted == old(HasId(store.GetAllSavedBreeds(), id))
      ensures !deleted ==> unchanged(store)
      ensures deleted ==> store.item == Some(Without(old(store.GetAllSavedBreeds()), id))
      ensures deleted && old(isEditing && currentEditId == Some(id)) ==> Cleared()
      ensures !(deleted && old(isEditing && currentEditId == Some(id))) ==> unchanged(this)
    {
      deleted := false;
      if confirmed {
        deleted := store.DeleteBreed(id);
        if deleted {
          if isEditing && currentEditId == Some(id) {
            ResetForm();
          }
        }
      }
    }
  }
}

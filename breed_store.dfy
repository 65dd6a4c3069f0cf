/** The saved-breed store kept in `localStorage` under one key: a list of records with
    create, read, update, delete, clear and search. The stored value is modelled as the
    already-parsed list; `None` stands for the key being absent. */
module BreedStore {
  import opened Wrappers
  import opened Seqs
  import opened Text

  const STORAGE_KEY: string := "dog_breeds_crud"

  datatype SavedBreed = SavedBreed(id: string, breed: string, subBreeds: seq<string>)

  /** The partial update accepted by `updateBreed`: every field other than `id` may be
      given or left out. */
  datatype BreedUpdate = BreedUpdate(breed: Option<string>, subBreeds: Option<seq<string>>)

  /** `{...b, ...updates}`: the given fields replace the record's, the rest are kept. */
  function Merge(b: SavedBreed, u: BreedUpdate): SavedBreed
  {
    SavedBreed(b.id, u.breed.GetOr(b.breed), u.subBreeds.GetOr(b.subBreeds))
  }

  predicate HasId(s: seq<SavedBreed>, id: string)
  {
    exists k :: 0 <= k < |s| && s[k].id == id
  }

  predicate UniqueIds(s: seq<SavedBreed>)
  {
    forall i, j :: 0 <= i < j < |s| ==> s[i].id != s[j].id
  }

  /** `findIndex(b => b.id === id)`: the first index holding `id`, or -1. */
  function FindIndex(s: seq<SavedBreed>, id: string): (i: int)
    ensures -1 <= i < |s|
    ensures i == -1 <==> !HasId(s, id)
    ensures i >= 0 ==> s[i].id == id && forall j :: 0 <= j < i ==> s[j].id != id
  {
    if s == [] then -1
    else if s[0].id == id then 0
    else
      var i := FindIndex(s[1..], id);
      assert forall j :: 1 <= j < |s| ==> s[j] == s[1..][j - 1];
      if i == -1 then -1 else i + 1
  }

  /** `filter(b => b.id !== id)` */
  function Without(s: seq<SavedBreed>, id: string): seq<SavedBreed>
  {
    Filter((b: SavedBreed) => b.id != id, s)
  }

  /** Removing an id keeps the other records in order, drops every record with that id, and
      shortens the list exactly when the id was present. */
  lemma {:induction false} WithoutProperties(s: seq<SavedBreed>, id: string)
    ensures forall b :: b in Without(s, id) <==> b in s && b.id != id
    ensures IsSubsequence(Without(s, id), s)
    ensures |Without(s, id)| == |s| <==> !HasId(s, id)
    ensures !HasId(s, id) ==> Without(s, id) == s
  {
    var p := (b: SavedBreed) => b.id != id;
    forall b | b in s && b.id != id ensures b in Without(s, id) {
      FilterKeeps(p, s, b);
    }
    FilterIsSubsequence(p, s);
    FilterKeepsLength(p, s);
    if HasId(s, id) {
      var k :| 0 <= k < |s| && s[k].id == id;
      assert s[k] in s && !p(s[k]);
    } else {
      forall x | x in s ensures p(x) {
        var k :| 0 <= k < |s| && s[k] == x;
      }
    }
  }

  /** A record matches a search term when its name or one of its sub-breeds, lower-cased,
      contains the term. */
  predicate Matches(b: SavedBreed, term: string)
  {
    Contains(ToLower(b.breed), term) ||
    exists k :: 0 <= k < |b.subBreeds| && Contains(ToLower(b.subBreeds[k]), term)
  }

  /** `searchTerm.toLowerCase().trim()` */
  function SearchTerm(searchTerm: string): string
  {
    Trim(ToLower(searchTerm))
  }

  /** The value of `searchBreeds` over a given list. */
  function Search(saved: seq<SavedBreed>, searchTerm: string): (r: seq<SavedBreed>)
  {
    var term := SearchTerm(searchTerm);
    if term == [] then saved else Filter((b: SavedBreed) => Matches(b, term), saved)
  }

  /** A blank term returns the whole list; otherwise the result holds, in stored order,
      exactly the records that match the lower-cased, trimmed term. */
  lemma {:induction false} SearchProperties(saved: seq<SavedBreed>, searchTerm: string)
    ensures (forall k :: 0 <= k < |searchTerm| ==> IsWhitespace(searchTerm[k])) ==>
      Search(saved, searchTerm) == saved
    ensures SearchTerm(searchTerm) != [] ==>
      forall b :: b in Search(saved, searchTerm) <==> b in saved && Matches(b, SearchTerm(searchTerm))
    ensures SearchTerm(searchTerm) != [] ==>
      forall b :: multiset(Search(saved, searchTerm))[b] ==
        if Matches(b, SearchTerm(searchTerm)) then multiset(saved)[b] else 0
    ensures IsSubsequence(Search(saved, searchTerm), saved)
  {
    var term := SearchTerm(searchTerm);
    if forall k :: 0 <= k < |searchTerm| ==> IsWhitespace(searchTerm[k]) {
      forall k | 0 <= k < |searchTerm| ensures IsWhitespace(ToLower(searchTerm)[k]) {
        assert ToLower(searchTerm)[k] == searchTerm[k];
      }
    }
    if term == [] {
      IsSubsequenceRefl(saved);
    } else {
      var p := (b: SavedBreed) => Matches(b, term);
      forall b | b in saved && Matches(b, term) ensures b in Search(saved, searchTerm) {
        FilterKeeps(p, saved, b);
      }
      forall b ensures multiset(Search(saved, searchTerm))[b] == if p(b) then multiset(saved)[b] else 0 {
        FilterMultiset(p, saved, b);
      }
      FilterIsSubsequence(p, saved);
    }
  }

  /** The store behind `localStorage`. */
  class Storage {
    /** The parsed value under `STORAGE_KEY`, or `None` when the key is absent. */
    var item: Option<seq<SavedBreed>>

    constructor ()
      ensures item == None
    {
      item := None;
    }

    /** `getAllSavedBreeds`: the stored list, or `[]` when nothing is stored. */
    function GetAllSavedBreeds(): seq<SavedBreed>
      reads this
    {
      item.GetOr([])
    }

    /** `createBreed(breed, subBreeds = [])`, with `newId` the value `generateId()` returns:
        the new record is appended at the end and returned. */
    method CreateBreed(newId: string, breed: string, subBreeds: seq<string> := []) returns (newBreed: SavedBreed)
      modifies this
      ensures newBreed == SavedBreed(newId, breed, subBreeds)
      ensures item == Some(old(GetAllSavedBreeds()) + [newBreed])
      ensures old(!HasId(GetAllSavedBreeds(), newId)) ==> ReadBreed(newId) == Some(newBreed)
      ensures old(UniqueIds(GetAllSavedBreeds()) && !HasId(GetAllSavedBreeds(), newId)) ==>
        UniqueIds(GetAllSavedBreeds())
    {
      var savedBreeds := GetAllSavedBreeds();
      newBreed := SavedBreed(newId, breed, subBreeds);
      savedBreeds := savedBreeds + [newBreed];
      item := Some(savedBreeds);
      assert savedBreeds[|savedBreeds| - 1] == newBreed;
    }

    /** `readBreed(id)`: the first record with the id, or `None` (`null`). */
    function ReadBreed(id: string): (r: Option<SavedBreed>)
      reads this
      ensures r == None <==> !HasId(GetAllSavedBreeds(), id)
      ensures r.Some? ==> exists k :: (0 <= k < |GetAllSavedBreeds()| &&
        r.value == GetAllSavedBreeds()[k] && r.value.id == id &&
        forall j :: 0 <= j < k ==> GetAllSavedBreeds()[j].id != id)
    {
      var savedBreeds := GetAllSavedBreeds();
      var i := FindIndex(savedBreeds, id);
      if i == -1 then None else Some(savedBreeds[i])
    }

    /** `updateBreed(id, updates)`: with no record for the id, `None` and no write; otherwise
        the first such record is replaced by its merge with `updates` and returned. */
    method UpdateBreed(id: string, updates: BreedUpdate) returns (r: Option<SavedBreed>)
      modifies this
      ensures !old(HasId(GetAllSavedBreeds(), id)) ==> r == None && unchanged(this)
      ensures old(HasId(GetAllSavedBreeds(), id)) ==>
        var i := FindIndex(old(GetAllSavedBreeds()), id);
        r == Some(Merge(old(GetAllSavedBreeds())[i], updates)) &&
        item == Some(old(GetAllSavedBreeds())[i := r.value])
      ensures old(HasId(GetAllSavedBreeds(), id)) ==> ReadBreed(id) == r
      ensures |GetAllSavedBreeds()| == old(|GetAllSavedBreeds()|)
      ensures old(UniqueIds(GetAllSavedBreeds())) ==> UniqueIds(GetAllSavedBreeds())
    {
      var savedBreeds := GetAllSavedBreeds();
      var index := FindIndex(savedBreeds, id);
      if index == -1 {
        return None;
      }
      var updatedBreed := Merge(savedBreeds[index], updates);
      savedBreeds := savedBreeds[index := updatedBreed];
      item := Some(savedBreeds);
      r := Some(updatedBreed);
      assert savedBreeds[index].id == id && HasId(savedBreeds, id);
      assert forall j :: 0 <= j < index ==> savedBreeds[j].id != id;
      assert FindIndex(savedBreeds, id) == index;
    }

    /** `deleteBreed(id)`: `false` and no write when no record has the id; otherwise every
        record with the id is removed, the rest keep their order, and the result is `true`. */
    method DeleteBreed(id: string) returns (deleted: bool)
      modifies this
      ensures deleted <==> old(HasId(GetAllSavedBreeds(), id))
      ensures !deleted ==> unchanged(this)
      ensures deleted ==> item == Some(Without(old(GetAllSavedBreeds()), id))
      ensures ReadBreed(id) == None
      ensures forall b :: b in GetAllSavedBreeds() <==> b in old(GetAllSavedBreeds()) && b.id != id
    {
      var savedBreeds := GetAllSavedBreeds();
      var filteredBreeds := Without(savedBreeds, id);
      WithoutProperties(savedBreeds, id);
      if |filteredBreeds| == |savedBreeds| {
        return false;
      }
      item := Some(filteredBreeds);
      deleted := true;
    }

    /** `clearAllBreeds`: remove the key, so that the store reads as empty. */
    method ClearAllBreeds()
      modifies this
      ensures item == None && GetAllSavedBreeds() == []
    {
      item := None;
    }

    /** `searchBreeds(searchTerm)` over the stored list. */
    function SearchBreeds(searchTerm: string): (r: seq<SavedBreed>)
      reads this
      ensures IsSubsequence(r, GetAllSavedBreeds())
      ensures SearchTerm(searchTerm) == [] ==> r == GetAllSavedBreeds()
      ensures SearchTerm(searchTerm) != [] ==>
        forall b :: b in r <==> b in GetAllSavedBreeds() && Matches(b, SearchTerm(searchTerm))
      ensures SearchTerm(searchTerm) != [] ==>
        forall b :: multiset(r)[b] ==
          if Matches(b, SearchTerm(searchTerm)) then multiset(GetAllSavedBreeds())[b] else 0
    {
      SearchProperties(GetAllSavedBreeds(), searchTerm);
      Search(GetAllSavedBreeds(), searchTerm)
    }
  }
}

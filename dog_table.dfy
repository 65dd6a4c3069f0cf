/** The breed table component: it keeps the list of breeds with their sub-breeds and the
    table built from it, one body row per breed. The DOM is modelled by the text the cells
    show; class names, ARIA attributes and the header row are left out. */
module DogTableComponent {
  import opened Seqs
  import opened BreedNames
  import opened DogApi

  /** The text `crearElemento` puts in the cell of a breed without sub-breeds, exactly as
      the source file spells it (the bytes of an em dash read as Windows-1252). */
  const EMPTY_PLACEHOLDER: string := "\U{E2}\U{20AC}\U{201D}"

  /** The sub-breed cell: a list with one item per sub-breed, or the placeholder text. */
  datatype SubBreedsCell = Items(items: seq<string>) | Placeholder(text: string)

  datatype Row = Row(breedCell: string, subBreedsCell: SubBreedsCell)

  /** The row `crearElemento` builds for one record. */
  function RowFor(item: BreedWithSubBreeds): (row: Row)
    ensures row.breedCell == FormatBreedName(item.breed)
    ensures row.subBreedsCell.Placeholder? <==> item.subBreeds == []
    ensures row.subBreedsCell.Placeholder? ==> row.subBreedsCell.text == EMPTY_PLACEHOLDER
    ensures row.subBreedsCell.Items? ==>
      |row.subBreedsCell.items| == |item.subBreeds| &&
      forall k :: 0 <= k < |item.subBreeds| ==>
        row.subBreedsCell.items[k] == FormatBreedName(item.subBreeds[k])
  {
    Row(FormatBreedName(item.breed),
        if |item.subBreeds| > 0 then Items(Map(FormatBreedName, item.subBreeds))
        else Placeholder(EMPTY_PLACEHOLDER))
  }

  /** No cell text of a row holds a `-`: every one was turned into a space. */
  lemma {:induction false} RowHasNoHyphen(item: BreedWithSubBreeds)
    ensures '-' !in RowFor(item).breedCell
    ensures RowFor(item).subBreedsCell.Items? ==>
      forall k :: 0 <= k < |RowFor(item).subBreedsCell.items| ==> '-' !in RowFor(item).subBreedsCell.items[k]
  {
    FormatNoHyphen(item.breed);
    forall k | 0 <= k < |item.subBreeds|
      ensures '-' !in FormatBreedName(item.subBreeds[k])
    {
      FormatNoHyphen(item.subBreeds[k]);
    }
  }

  class DogTable {
    var data: seq<BreedWithSubBreeds>
    var element: seq<Row>

    /** The table shows exactly the current data, one row per record, in order. */
    ghost predicate Valid()
      reads this
    {
      |element| == |data| && forall i :: 0 <= i < |data| ==> element[i] == RowFor(data[i])
    }

    constructor(data: seq<BreedWithSubBreeds>)
      ensures this.data == data && Valid()
    {
      this.data := data;
      var rows := CrearElemento(data);
      element := rows;
    }

    /** `crearElemento`: the `forEach` over the data appends one row per record. */
    static method CrearElemento(data: seq<BreedWithSubBreeds>) returns (rows: seq<Row>)
      ensures |rows| == |data|
      ensures forall i :: 0 <= i < |data| ==> rows[i] == RowFor(data[i])
    {
      rows := [];
      for i := 0 to |data|
        invariant |rows| == i
        invariant forall k :: 0 <= k < i ==> rows[k] == RowFor(data[k])
      {
        rows := rows + [RowFor(data[i])];
      }
    }

    /** `actualizarDatos`: take the new data and rebuild the table from it. */
    method ActualizarDatos(data: seq<BreedWithSubBreeds>)
      modifies this
      ensures this.data == data && Valid()
    {
      this.data := data;
      var rows := CrearElemento(data);
      element := rows;
    }

    /** `obtenerDatos`: a fresh array holding the records; writing to it leaves the
        table's own list alone. */
    method ObtenerDatos() returns (copy: array<BreedWithSubBreeds>)
      ensures fresh(copy) && copy[..] == data
    {
      copy := new BreedWithSubBreeds[|data|](k requires 0 <= k < |data| reads this => data[k]);
    }
  }

  /** Replacing the data and reading it back returns the new records. */
  method UpdateThenRead(t: DogTable, d: seq<BreedWithSubBreeds>) returns (copy: array<BreedWithSubBreeds>)
    modifies t
    ensures copy[..] == d && t.Valid()
  {
    t.ActualizarDatos(d);
    copy := t.ObtenerDatos();
  }
}

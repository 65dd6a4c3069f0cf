/** The gallery page loader (`cargarRazasDePerros` of the compiled page script): fetch the
    breed list, show an error when it is empty, otherwise ask for one image for each of
    the first 20 breeds and add a card for every breed whose image URL is not empty. */
module DogGallery {
  import opened Seqs
  import opened BreedNames
  import opened DogApi

  const GALLERY_LIMIT: nat := 20

  /** The data a `DogCard` is built from. */
  datatype DogCardData = DogCardData(name: string, image: string)

  /** What the grid shows when loading ends. */
  datatype Grid = LoadError | Cards(cards: seq<DogCardData>)

  /** The card a breed would get, whether or not its image came back. */
  function CardFor(net: Network, raza: string): DogCardData
  {
    DogCardData(FormatBreedName(raza), ObtenerImagenRaza(net, raza))
  }

  /** `if (imagen)`: the empty string is the only falsy string. */
  predicate HasImage(c: DogCardData)
  {
    c.image != ""
  }

  /** The candidate card of every breed, in list order. */
  function Candidates(net: Network, razas: seq<string>): (cs: seq<DogCardData>)
    ensures |cs| == |razas|
    ensures forall k :: 0 <= k < |razas| ==> cs[k] == CardFor(net, razas[k])
  {
    if razas == [] then [] else [CardFor(net, razas[0])] + Candidates(net, razas[1..])
  }

  lemma {:induction false} CandidatesSnoc(net: Network, razas: seq<string>, raza: string)
    ensures Candidates(net, razas + [raza]) == Candidates(net, razas) + [CardFor(net, raza)]
  {
  }

  /** The cards added for `razas`: the candidates that have an image, in list order. */
  function GalleryCards(net: Network, razas: seq<string>): (cs: seq<DogCardData>)
    ensures |cs| <= |razas|
  {
    Filter(HasImage, Candidates(net, razas))
  }

  /** A card that survives the filter is the card of one of the breeds and has an image. */
  lemma {:induction false} GalleryCardFrom(net: Network, razas: seq<string>, c: DogCardData)
    requires c in GalleryCards(net, razas)
    ensures c.image != "" && exists k :: 0 <= k < |razas| && c == CardFor(net, razas[k])
  {
    var cs := Candidates(net, razas);
    assert c in cs;
    var k :| 0 <= k < |cs| && cs[k] == c;
    assert c == CardFor(net, razas[k]);
  }

  /** Every candidate has an image exactly when every image came back. */
  lemma {:induction false} CandidatesAllHaveImage(net: Network, razas: seq<string>)
    ensures (forall x :: x in Candidates(net, razas) ==> HasImage(x)) <==>
      forall k :: 0 <= k < |razas| ==> ObtenerImagenRaza(net, razas[k]) != ""
  {
    var cs := Candidates(net, razas);
    if forall k :: 0 <= k < |razas| ==> ObtenerImagenRaza(net, razas[k]) != "" {
      forall x | x in cs ensures HasImage(x) {
        var k :| 0 <= k < |cs| && cs[k] == x;
        assert x == CardFor(net, razas[k]);
      }
    }
    if forall x :: x in cs ==> HasImage(x) {
      forall k | 0 <= k < |razas| ensures ObtenerImagenRaza(net, razas[k]) != "" {
        assert cs[k] in cs;
      }
    }
  }

  /** The cards keep list order, each card is the card of one of the breeds and has an
      image, and there is one card per breed exactly when every image came back. */
  lemma {:induction false} GalleryCardsOrder(net: Network, razas: seq<string>)
    ensures IsSubsequence(GalleryCards(net, razas), Candidates(net, razas))
    ensures forall c :: c in GalleryCards(net, razas) ==>
      c.image != "" && exists k :: 0 <= k < |razas| && c == CardFor(net, razas[k])
    ensures |GalleryCards(net, razas)| == |razas| <==>
      forall k :: 0 <= k < |razas| ==> ObtenerImagenRaza(net, razas[k]) != ""
  {
    FilterIsSubsequence(HasImage, Candidates(net, razas));
    FilterKeepsLength(HasImage, Candidates(net, razas));
    CandidatesAllHaveImage(net, razas);
    forall c | c in GalleryCards(net, razas)
      ensures c.image != "" && exists k :: 0 <= k < |razas| && c == CardFor(net, razas[k])
    {
      GalleryCardFrom(net, razas, c);
    }
  }

  /** One turn of the loop: the next breed adds its card exactly when it has an image. */
  lemma {:induction false} GalleryStep(net: Network, razas: seq<string>, i: nat)
    requires i < |razas|
    ensures GalleryCards(net, razas[..i + 1]) == GalleryCards(net, razas[..i]) +
      (if ObtenerImagenRaza(net, razas[i]) != "" then [DogCardData(FormatBreedName(razas[i]), ObtenerImagenRaza(net, razas[i]))] else [])
  {
    assert razas[..i + 1] == razas[..i] + [razas[i]];
    CandidatesSnoc(net, razas[..i], razas[i]);
    FilterConcat(HasImage, Candidates(net, razas[..i]), [CardFor(net, razas[i])]);
  }

  /** `cargarRazasDePerros` */
  method CargarRazasDePerros(net: Network) returns (grid: Grid)
    ensures ObtenerTodasLasRazas(net) == [] <==> grid == LoadError
    ensures grid.Cards? ==>
      var razas := ObtenerTodasLasRazas(net);
      grid.cards == GalleryCards(net, razas[..SliceEnd(|razas|, GALLERY_LIMIT)])
    ensures grid.Cards? ==>
      |grid.cards| <= if |ObtenerTodasLasRazas(net)| < GALLERY_LIMIT then |ObtenerTodasLasRazas(net)| else GALLERY_LIMIT
  {
    var razas := ObtenerTodasLasRazas(net);
    if |razas| == 0 {
      return LoadError;
    }
    var razasLimitadas := razas[..SliceEnd(|razas|, GALLERY_LIMIT)];
    var cards: seq<DogCardData> := [];
    for i := 0 to |razasLimitadas|
      invariant cards == GalleryCards(net, razasLimitadas[..i])
    {
      var raza := razasLimitadas[i];
      var imagen := ObtenerImagenRaza(net, raza);
      var nombreFormateado := FormatBreedName(raza);
      GalleryStep(net, razasLimitadas, i);
      if imagen != "" {
        cards := cards + [DogCardData(nombreFormateado, imagen)];
      }
    }
    assert razasLimitadas[..|razasLimitadas|] == razasLimitadas;
    grid := Cards(cards);
  }
}

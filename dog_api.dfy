/** The Dog CEO API helpers: the two endpoint URLs, the four lookups over the parsed
    response, and the random selection of breeds. The network is a parameter `net` that
    maps a URL to the parsed response, or to `None` when the request or the JSON decoding
    throws (every helper catches the exception and returns its empty value). */
module DogApi {
  import opened Wrappers
  import opened Seqs
  import opened FisherYates

  const DOG_API_BASE_URL: string := "https://dog.ceo/api"
  const ALL_BREEDS: string := DOG_API_BASE_URL + "/breeds/list/all"
  const IMAGE_PREFIX: string := DOG_API_BASE_URL + "/breed/"
  const IMAGE_SUFFIX: string := "/images/random"

  /** `API_ENDPOINTS.BREED_IMAGE(breed)` */
  function BreedImage(breed: string): (url: string)
    ensures |url| == |IMAGE_PREFIX| + |breed| + |IMAGE_SUFFIX|
    ensures url[..|IMAGE_PREFIX|] == IMAGE_PREFIX
    ensures url[|IMAGE_PREFIX|..|IMAGE_PREFIX| + |breed|] == breed
    ensures url[|IMAGE_PREFIX| + |breed|..] == IMAGE_SUFFIX
  {
    var url := IMAGE_PREFIX + breed + IMAGE_SUFFIX;
    assert url[..|IMAGE_PREFIX|] == IMAGE_PREFIX;
    assert url[|IMAGE_PREFIX|..|IMAGE_PREFIX| + |breed|] == breed;
    assert url[|IMAGE_PREFIX| + |breed|..] == IMAGE_SUFFIX;
    url
  }

  /** Different breeds are asked for at different URLs. */
  lemma {:induction false} BreedImageInjective(a: string, b: string)
    ensures BreedImage(a) == BreedImage(b) <==> a == b
  {
    if BreedImage(a) == BreedImage(b) {
      var n := |IMAGE_PREFIX|;
      assert |a| == |b|;
      assert a == BreedImage(a)[n..n + |a|] == BreedImage(b)[n..n + |b|] == b;
    }
  }

  /** No image URL is the breed-list URL: the two differ right after `/breed`. */
  lemma {:induction false} EndpointsDistinct(breed: string)
    ensures BreedImage(breed) != ALL_BREEDS
  {
    var n := |IMAGE_PREFIX|;
    assert BreedImage(breed)[n - 1] == IMAGE_PREFIX[n - 1] == '/';
    assert ALL_BREEDS[n - 1] == 's';
  }

  // ---------------------------------------------------------------------------------
  // Responses

  /** One `key: value` pair of the breed object; `None` is a `null` value. */
  datatype Entry = Entry(key: string, value: Option<seq<string>>)

  predicate UniqueKeys(es: seq<Entry>)
  {
    forall i, j :: 0 <= i < j < |es| ==> es[i].key != es[j].key
  }

  /** The entries of a parsed JSON object, in key order: `JSON.parse` keeps each key once
      (a repeated key keeps its last value in the first key's place). */
  type JsonObject = es: seq<Entry> | UniqueKeys(es) witness []

  /** The `message` field: a string, an object, or anything else (a number, a boolean,
      `null`); `Object.keys(null)` and `null[raza]` throw, which ends in the same empty
      result as a wrong type. */
  datatype Message = Text(text: string) | Object(entries: JsonObject) | Other

  datatype DogApiResponse = DogApiResponse(message: Message, status: string)

  /** The network: what a `fetch` of a URL followed by `response.json()` yields, or
      `None` when either throws. */
  type Network = string -> Option<DogApiResponse>

  datatype BreedWithSubBreeds = BreedWithSubBreeds(breed: string, subBreeds: seq<string>)


  /** `datos.status === 'success' && typeof datos.message === 'object'`, with the entries. */
  function ObjectEntries(resp: Option<DogApiResponse>): Option<JsonObject>
  {
    if resp.Some? && resp.value.status == "success" && resp.value.message.Object?
    then Some(resp.value.message.entries)
    else None
  }

  function KeyOf(e: Entry): string { e.key }

  /** `subBreeds || []` */
  function SubBreedsOrEmpty(v: Option<seq<string>>): seq<string>
  {
    v.GetOr([])
  }

  /** `obtenerTodasLasRazas`: the keys of the breed object, in order. */
  function ObtenerTodasLasRazas(net: Network): (r: seq<string>)
    ensures ObjectEntries(net(ALL_BREEDS)).None? ==> r == []
    ensures ObjectEntries(net(ALL_BREEDS)).Some? ==>
      var es := ObjectEntries(net(ALL_BREEDS)).value;
      |r| == |es| && forall i :: 0 <= i < |es| ==> r[i] == es[i].key
  {
    match ObjectEntries(net(ALL_BREEDS))
    case None => []
    case Some(es) => Map(KeyOf, es)
  }

  /** The key list of an object has no repeats. */
  lemma {:induction false} AllBreedsDistinct(net: Network)
    ensures Distinct(ObtenerTodasLasRazas(net))
  {
  }

  /** `razas[raza] || []`: the value stored under `key`, `[]` when the key is absent or
      the value is `null`. */
  function SubBreedsOf(es: seq<Entry>, key: string): (v: seq<string>)
    ensures (forall i :: 0 <= i < |es| ==> es[i].key != key) ==> v == []
  {
    if es == [] then []
    else if es[0].key == key then SubBreedsOrEmpty(es[0].value)
    else SubBreedsOf(es[1..], key)
  }

  /** With unique keys the lookup finds the entry's own value. */
  lemma {:induction false} SubBreedsOfAt(es: seq<Entry>, i: nat)
    requires UniqueKeys(es) && i < |es|
    ensures SubBreedsOf(es, es[i].key) == SubBreedsOrEmpty(es[i].value)
  {
    if i > 0 {
      assert es[0].key != es[i].key;
      SubBreedsOfAt(es[1..], i - 1);
    }
  }

  /** `obtenerSubRazas`: the sub-breeds of one breed, `[]` on any failure. */
  function ObtenerSubRazas(net: Network, raza: string): (r: seq<string>)
    ensures ObjectEntries(net(ALL_BREEDS)).None? ==> r == []
    ensures raza !in ObtenerTodasLasRazas(net) ==> r == []
  {
    match ObjectEntries(net(ALL_BREEDS))
    case None => []
    case Some(es) =>
      assert raza !in ObtenerTodasLasRazas(net) ==> forall i :: 0 <= i < |es| ==> es[i].key != raza by {
        if raza !in ObtenerTodasLasRazas(net) {
          forall i | 0 <= i < |es| ensures es[i].key != raza {
            assert ObtenerTodasLasRazas(net)[i] == es[i].key;
          }
        }
      }
      SubBreedsOf(es, raza)
  }

  function WithSubBreeds(e: Entry): BreedWithSubBreeds
  {
    BreedWithSubBreeds(e.key, SubBreedsOrEmpty(e.value))
  }

  /** `obtenerTodasLasRazasConSubRazas`: one record per key, in order. */
  function ObtenerTodasLasRazasConSubRazas(net: Network): (r: seq<BreedWithSubBreeds>)
    ensures ObjectEntries(net(ALL_BREEDS)).None? ==> r == []
    ensures ObjectEntries(net(ALL_BREEDS)).Some? ==>
      var es := ObjectEntries(net(ALL_BREEDS)).value;
      |r| == |es| && forall i :: 0 <= i < |es| ==>
        r[i].breed == es[i].key && r[i].subBreeds == SubBreedsOrEmpty(es[i].value)
  {
    match ObjectEntries(net(ALL_BREEDS))
    case None => []
    case Some(es) => Map(WithSubBreeds, es)
  }

  /** The record list agrees with the two single lookups on the same response: record `i`
      names the `i`-th breed, and its sub-breeds are what `obtenerSubRazas` returns. */
  lemma {:induction false} WithSubBreedsAgree(net: Network)
    ensures |ObtenerTodasLasRazasConSubRazas(net)| == |ObtenerTodasLasRazas(net)|
    ensures forall i :: 0 <= i < |ObtenerTodasLasRazas(net)| ==>
      ObtenerTodasLasRazasConSubRazas(net)[i].breed == ObtenerTodasLasRazas(net)[i] &&
      ObtenerTodasLasRazasConSubRazas(net)[i].subBreeds == ObtenerSubRazas(net, ObtenerTodasLasRazas(net)[i])
  {
    if ObjectEntries(net(ALL_BREEDS)).Some? {
      var es := ObjectEntries(net(ALL_BREEDS)).value;
      forall i | 0 <= i < |es|
        ensures ObtenerSubRazas(net, es[i].key) == SubBreedsOrEmpty(es[i].value)
      {
        SubBreedsOfAt(es, i);
      }
    }
  }

  /** `obtenerImagenRaza`: the image URL, `''` on any failure. */
  function ObtenerImagenRaza(net: Network, raza: string): (url: string)
    ensures url != "" ==> net(BreedImage(raza)) == Some(DogApiResponse(Text(url), "success"))
    ensures net(BreedImage(raza)).None? ==> url == ""
    ensures net(BreedImage(raza)).Some? && net(BreedImage(raza)).value.status != "success" ==> url == ""
    ensures net(BreedImage(raza)).Some? && !net(BreedImage(raza)).value.message.Text? ==> url == ""
    ensures var resp := net(BreedImage(raza));
      resp.Some? && resp.value.status == "success" && resp.value.message.Text? ==>
        url == resp.value.message.text
  {
    var resp := net(BreedImage(raza));
    if resp.Some? && resp.value.status == "success" && resp.value.message.Text?
    then resp.value.message.text
    else ""
  }

  /** `obtenerRazasAleatorias(cantidad)`: fetch the breed list, shuffle a copy with the
      countdown loop and keep `slice(0, cantidad)` of it. */
  method ObtenerRazasAleatorias(net: Network, cantidad: int, draws: seq<nat>)
    returns (r: seq<string>)
    requires ValidDraws(draws, |ObtenerTodasLasRazas(net)|)
    ensures var todas := ObtenerTodasLasRazas(net);
      r == Shuffle(todas, draws)[..SliceEnd(|todas|, cantidad)]
    ensures ObtenerTodasLasRazas(net) == [] ==> r == []
    ensures 0 <= cantidad ==>
      |r| == if cantidad < |ObtenerTodasLasRazas(net)| then cantidad else |ObtenerTodasLasRazas(net)|
    ensures multiset(r) <= multiset(ObtenerTodasLasRazas(net))
    ensures Distinct(ObtenerTodasLasRazas(net)) ==> Distinct(r)
  {
    var todasLasRazas := ObtenerTodasLasRazas(net);
    if |todasLasRazas| == 0 {
      return [];
    }
    var razasMezcladas := ShuffleCards(todasLasRazas, draws);
    r := razasMezcladas[..SliceEnd(|razasMezcladas|, cantidad)];
    ShufflePrefix(todasLasRazas, draws, |r|);
  }
}

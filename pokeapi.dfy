/** The PokeAPI client: the URLs it requests and the shapes of its answers. */
module PokeApi {
  import opened Wrappers
  import opened JsString
  import opened JsArray

  const ApiBase: string := "https://pokeapi.co/api/v2"

  const ArtworkPrefix: string :=
    "https://raw.githubusercontent.com/PokeAPI/sprites/master/sprites/pokemon/other/official-artwork/"

  /** One entry of a list page. */
  datatype PokemonListItem = PokemonListItem(name: string, url: string)

  /** The body of `GET /pokemon?limit=&offset=`. */
  datatype PokemonListResponse = PokemonListResponse(
    count: int, next: Option<string>, previous: Option<string>, results: seq<PokemonListItem>)

  datatype PokemonStat = PokemonStat(name: string, baseStat: int)

  /** The body of `GET /pokemon/{nameOrId}`, without the sprites. */
  datatype PokemonDetail = PokemonDetail(id: int, name: string, types: seq<string>, stats: seq<PokemonStat>)

  /**
   * The outcome of one HTTP request: the decoded body, or the error axios
   * throws, whose `message` may be missing.
   */
  datatype FetchResult<T> = Fetched(data: T) | FetchFailed(message: Option<string>)

  /** `fetchPokemonDetail` accepts a name or a numeric id. */
  datatype NameOrId = ByName(name: string) | ById(id: nat)

  /** How a name or an id is written into a template string. */
  function Segment(nameOrId: NameOrId): string {
    match nameOrId
    case ByName(name) => name
    case ById(id) => NatToString(id)
  }

  /** Every list URL starts with this. */
  const ListPrefix: string := ApiBase + "/pokemon?limit="

  /** Every detail URL starts with this. */
  const DetailPrefix: string := ApiBase + "/pokemon/"

  /** The URL `fetchPokemonList(limit, offset)` requests. */
  function ListUrl(limit: nat := 20, offset: nat := 0): (url: string)
    ensures |ListPrefix| <= |url| && url[..|ListPrefix|] == ListPrefix
    ensures url[|ListPrefix|..] == NatToString(limit) + "&offset=" + NatToString(offset)
  {
    var url := ListPrefix + NatToString(limit) + "&offset=" + NatToString(offset);
    assert url[|ListPrefix|..] == NatToString(limit) + "&offset=" + NatToString(offset);
    url
  }

  /** The URL `fetchPokemonDetail(nameOrId)` requests: the name, or the id in decimal, after `/pokemon/`. */
  function DetailUrl(nameOrId: NameOrId): (url: string)
    ensures |DetailPrefix| <= |url| && url[..|DetailPrefix|] == DetailPrefix
    ensures url[|DetailPrefix|..] == Segment(nameOrId)
  {
    DetailPrefix + Segment(nameOrId)
  }

  /** `getOfficialArtworkUrl(id)`. */
  function ArtworkUrl(id: nat): (url: string)
    ensures |url| == |ArtworkPrefix| + |NatToString(id)| + 4
    ensures url[..|ArtworkPrefix|] == ArtworkPrefix
    ensures url[|url| - 4..] == ".png"
    ensures url[|ArtworkPrefix|..|url| - 4] == NatToString(id)
  {
    var url := ArtworkPrefix + NatToString(id) + ".png";
    assert url[|ArtworkPrefix|..|url| - 4] == NatToString(id);
    url
  }

  /** Distinct ids give distinct artwork URLs. */
  lemma ArtworkUrlInjective(a: nat, b: nat)
    requires ArtworkUrl(a) == ArtworkUrl(b)
    ensures a == b
  {
    NatToStringInjective(a, b);
  }

  /** The list URL determines the limit and the offset it was built from. */
  lemma ListUrlInjective(limit: nat, offset: nat, limit': nat, offset': nat)
    requires ListUrl(limit, offset) == ListUrl(limit', offset')
    ensures limit == limit' && offset == offset'
  {
    var q := "offset=";
    var l, l', o, o' := NatToString(limit), NatToString(limit'), NatToString(offset), NatToString(offset');
    assert l + ['&'] + (q + o) == l + "&offset=" + o;
    assert l' + ['&'] + (q + o') == l' + "&offset=" + o';
    assert '&' !in l && '&' !in l' by {
      assert forall c :: c in l ==> IsDigit(c);
      assert forall c :: c in l' ==> IsDigit(c);
    }
    SplitAtFirst(l, q + o, l', q + o', '&');
    assert o == (q + o)[|q|..];
    assert o' == (q + o')[|q|..];
    NatToStringInjective(limit, limit');
    NatToStringInjective(offset, offset');
  }
}

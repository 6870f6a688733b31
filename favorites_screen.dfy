/**
 * The favorites screen: loading one detail per favorite once the store is
 * ready, the search filter, and the choice between spinner and list.
 */
module FavoritesScreen {
  import opened JsString
  import opened JsArray
  import opened PokeApi

  /** One row of the screen. */
  datatype FavoriteEntry = FavoriteEntry(name: string, id: int)

  /** `item.name.toLowerCase().includes(query.trim().toLowerCase())`. */
  predicate Matches(item: FavoriteEntry, query: string) {
    Includes(ToLower(item.name), ToLower(Trim(query)))
  }

  function MatchesQuery(query: string): FavoriteEntry -> bool {
    item => Matches(item, query)
  }

  /**
   * The list handed to `FlatList`: every item for an empty query, otherwise
   * the items whose lower-cased name contains the trimmed, lower-cased
   * query, in their original order.
   */
  function VisibleItems(items: seq<FavoriteEntry>, query: string): (r: seq<FavoriteEntry>)
    ensures query == "" ==> r == items
    ensures query != "" ==> forall x :: x in r <==> x in items && Matches(x, query)
    ensures IsSubsequence(r, items)
  {
    if query == "" then
      SubsequenceReflexive(items);
      items
    else
      FilterIsSubsequence(items, MatchesQuery(query));
      Filter(items, MatchesQuery(query))
  }

  /** A query of white space only trims to "" and so keeps every item. */
  lemma WhiteSpaceQueryShowsAll(items: seq<FavoriteEntry>, query: string)
    requires AllWhiteSpace(query)
    ensures VisibleItems(items, query) == items
  {
    TrimAllWhiteSpace(query);
    forall i | 0 <= i < |items| ensures MatchesQuery(query)(items[i]) {
      assert OccursAt(ToLower(items[i].name), [], 0);
    }
    FilterKeepAll(items, MatchesQuery(query));
  }

  /** The search ignores the query's case: queries equal once lower-cased show the same items. */
  lemma VisibleItemsIgnoresQueryCase(items: seq<FavoriteEntry>, q: string, q': string)
    requires ToLower(q) == ToLower(q')
    ensures VisibleItems(items, q) == VisibleItems(items, q')
  {
    assert |q| == |ToLower(q)| == |q'|;
    if q != "" {
      ToLowerTrim(q);
      ToLowerTrim(q');
      assert ToLower(Trim(q)) == ToLower(Trim(q'));
      forall x ensures MatchesQuery(q)(x) == MatchesQuery(q')(x) {
        assert Matches(x, q) == Matches(x, q');
      }
      FilterAgree(items, MatchesQuery(q), MatchesQuery(q'));
    }
  }

  /** A non-empty query keeps every copy of a matching item and none of the others. */
  lemma VisibleItemsCount(items: seq<FavoriteEntry>, query: string, x: FavoriteEntry)
    requires query != ""
    ensures multiset(VisibleItems(items, query))[x] == if Matches(x, query) then multiset(items)[x] else 0
  {
    FilterCount(items, MatchesQuery(query), x);
  }

  /** What the screen shows. */
  datatype View = Spinner | ListOf(entries: seq<FavoriteEntry>)

  /** `!ready || loading ? <ActivityIndicator/> : <FlatList data={...}/>`. */
  function Render(ready: bool, loading: bool, items: seq<FavoriteEntry>, query: string): (v: View)
    ensures v.Spinner? <==> !ready || loading
    ensures v.ListOf? ==> v.entries == VisibleItems(items, query)
  {
    if !ready || loading then Spinner else ListOf(VisibleItems(items, query))
  }

  /** Every detail request for the favorites succeeds. */
  predicate AllFetched(favorites: seq<string>, fetch: string -> FetchResult<PokemonDetail>) {
    forall i :: 0 <= i < |favorites| ==> fetch(DetailUrl(ByName(favorites[i]))).Fetched?
  }

  /** One `{name, id}` per favorite, in favorites order, taken from its fetched detail. */
  function EntriesOf(favorites: seq<string>, fetch: string -> FetchResult<PokemonDetail>): (r: seq<FavoriteEntry>)
    requires AllFetched(favorites, fetch)
    ensures |r| == |favorites|
  {
    seq(|favorites|, i requires 0 <= i < |favorites| =>
      var d := fetch(DetailUrl(ByName(favorites[i]))).data; FavoriteEntry(d.name, d.id))
  }

  /** The screen's own state. */
  class FavoritesView {
    var loading: bool
    var items: seq<FavoriteEntry>

    constructor ()
      ensures !loading && items == []
    {
      loading, items := false, [];
    }

    /**
     * The effect run when `ready` or `favorites` changes: only when ready,
     * fetch every favorite's detail (`fetch` answers each URL); all succeed,
     * and `items` becomes their names and ids, or one fails and `items` stays.
     * `loading` is reset either way.
     */
    method Refresh(ready: bool, favorites: seq<string>, fetch: string -> FetchResult<PokemonDetail>)
      modifies this
      ensures !ready ==> loading == old(loading) && items == old(items)
      ensures ready ==> !loading
      ensures ready && AllFetched(favorites, fetch) ==> items == EntriesOf(favorites, fetch)
      ensures ready && !AllFetched(favorites, fetch) ==> items == old(items)
    {
      if !ready {
        return;
      }
      loading := true;
      var res: seq<FavoriteEntry> := [];
      var i := 0;
      var failed := false;
      while i < |favorites| && !failed
        invariant 0 <= i <= |favorites|
        invariant |res| == i
        invariant forall j :: 0 <= j < i ==> fetch(DetailUrl(ByName(favorites[j]))).Fetched?
        invariant forall j :: 0 <= j < i ==>
          res[j] == FavoriteEntry(fetch(DetailUrl(ByName(favorites[j]))).data.name,
                                  fetch(DetailUrl(ByName(favorites[j]))).data.id)
        invariant failed ==> i < |favorites| && fetch(DetailUrl(ByName(favorites[i]))).FetchFailed?
        decreases |favorites| - i, if failed then 0 else 1
      {
        match fetch(DetailUrl(ByName(favorites[i]))) {
          case Fetched(d) =>
            res := res + [FavoriteEntry(d.name, d.id)];
            i := i + 1;
          case FetchFailed(_) =>
            failed := true;
        }
      }
      if !failed {
        items := res;
      }
      loading := false;
    }
  }
}

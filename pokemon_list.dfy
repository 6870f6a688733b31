/**
 * The Pokédex list screen: reading an id out of a resource URL, and the
 * paginated loader that merges pages by name and falls back to the cached
 * list when the first fetch fails.
 */
module PokemonList {
  import opened Wrappers
  import opened JsString
  import opened JsArray
  import opened Persistence
  import opened PokeApi

  /** Every request asks for this many entries. */
  const PageSize: nat := 20

  /** The AsyncStorage key of the last list written. */
  const CacheKey: string := "last_pokemon_list"

  /** The error shown when the thrown error carries no message. */
  const DefaultError: string := "Failed to load Pok\U{00E9}mon"

  /**
   * `getIdFromUrl`: `Number` of the last non-empty `/`-separated segment of
   * the URL; `None` where JavaScript gives NaN.
   */
  function IdFromUrl(url: string): (id: Option<nat>)
    ensures '/' !in url ==> id == ParseNat(url)
  {
    var parts := NonEmptyParts(Split(url, '/'));
    NonEmptyPartsOfSeparatorFree(url, '/');
    if |parts| == 0 then None else ParseNat(parts[|parts| - 1])
  }

  /** A string without the separator has itself as its only non-empty part, or none when it is "". */
  lemma NonEmptyPartsOfSeparatorFree(d: string, sep: char)
    ensures sep !in d ==> NonEmptyParts(Split(d, sep)) == if d != [] then [d] else []
  {
    if sep !in d {
      SplitAfterSeparatorFree(d, sep);
      NonEmptyPartsAppend([], d);
      assert [] + [d] == [d];
    }
  }

  /** The id is read from the segment after the last slash. */
  lemma IdFromUrlLastSegment(u: string, d: string)
    requires d != [] && '/' !in d
    ensures IdFromUrl(u + "/" + d) == ParseNat(d)
  {
    SplitAfterSeparator(u, '/', d);
    NonEmptyPartsAppend(Split(u, '/'), d);
  }

  /** A trailing slash does not change the id. */
  lemma IdFromUrlTrailingSlash(u: string)
    ensures IdFromUrl(u + "/") == IdFromUrl(u)
  {
    SplitAfterSeparator(u, '/', []);
    assert u + ['/'] + [] == u + "/";
    NonEmptyPartsAppend(Split(u, '/'), []);
    assert NonEmptyParts(Split(u, '/')) + [] == NonEmptyParts(Split(u, '/'));
  }

  /** The id in a detail URL built from a number is that number, with or without a trailing slash. */
  lemma IdFromDetailUrl(id: nat)
    ensures IdFromUrl(DetailUrl(ById(id))) == Some(id)
    ensures IdFromUrl(DetailUrl(ById(id)) + "/") == Some(id)
  {
    var digits := NatToString(id);
    assert '/' !in digits by {
      assert forall c :: c in digits ==> IsDigit(c);
    }
    assert DetailUrl(ById(id)) == (ApiBase + "/pokemon") + "/" + digits;
    IdFromUrlLastSegment(ApiBase + "/pokemon", digits);
    ParseNatToString(id);
    IdFromUrlTrailingSlash(DetailUrl(ById(id)));
  }

  function Names(s: seq<PokemonListItem>): (names: seq<string>)
    ensures |names| == |s| && forall i :: 0 <= i < |s| ==> names[i] == s[i].name
  {
    seq(|s|, i requires 0 <= i < |s| => s[i].name)
  }

  lemma NamesConcat(a: seq<PokemonListItem>, b: seq<PokemonListItem>)
    ensures Names(a + b) == Names(a) + Names(b)
  {
  }

  /** The position of the last entry of `s` called `name`. */
  function LastIndexWithName(s: seq<PokemonListItem>, name: string): (i: nat)
    requires name in Names(s)
    ensures i < |s| && s[i].name == name
    ensures forall k :: i < k < |s| ==> s[k].name != name
    decreases |s|
  {
    var last := |s| - 1;
    if s[last].name == name then last
    else
      assert Names(s) == Names(s[..last]) + [s[last].name];
      LastIndexWithName(s[..last], name)
  }

  /**
   * The list the loader's `Map` produces from the entries `s`: one entry per
   * name, names in the order they are first seen, each with the value last
   * seen under that name.
   */
  function MergedByName(s: seq<PokemonListItem>): (r: seq<PokemonListItem>)
    ensures Names(r) == Distinct(Names(s)) && NoDup(Names(r))
    ensures forall j :: 0 <= j < |r| ==> r[j] == s[LastIndexWithName(s, r[j].name)]
  {
    var d := Distinct(Names(s));
    seq(|d|, j requires 0 <= j < |d| => s[LastIndexWithName(s, d[j])])
  }

  /**
   * `keys` (in insertion order) and `values` are the contents of a JavaScript
   * `Map` after `map.set(it.name, it)` for every entry `it` of `s` in turn.
   */
  ghost predicate MapHolds(keys: seq<string>, values: map<string, PokemonListItem>, s: seq<PokemonListItem>) {
    && keys == Distinct(Names(s))
    && (forall n :: n in values <==> n in Names(s))
    && (forall n :: n in values ==> values[n] == s[LastIndexWithName(s, n)])
  }

  /** One more `map.set(it.name, it)`. */
  lemma MapHoldsAfterSet(keys: seq<string>, values: map<string, PokemonListItem>,
                         s: seq<PokemonListItem>, it: PokemonListItem)
    requires MapHolds(keys, values, s)
    ensures MapHolds(if it.name in values then keys else keys + [it.name], values[it.name := it], s + [it])
  {
    var s', values' := s + [it], values[it.name := it];
    var keys' := if it.name in values then keys else keys + [it.name];
    NamesConcat(s, [it]);
    assert Names(s') == Names(s) + [it.name];
    assert keys' == Distinct(Names(s')) by {
      DistinctAppend(Names(s), it.name);
    }
    assert forall n :: n in values' <==> n in Names(s');
    forall n | n in values' ensures values'[n] == s'[LastIndexWithName(s', n)] {
      LastIndexAppend(s, it);
      if n != it.name {
        assert s'[LastIndexWithName(s, n)] == s[LastIndexWithName(s, n)];
      }
    }
  }

  /** `Array.from(map.values())` once every entry has been set. */
  lemma MapValuesMerged(keys: seq<string>, values: map<string, PokemonListItem>, s: seq<PokemonListItem>)
    requires MapHolds(keys, values, s)
    ensures forall j :: 0 <= j < |keys| ==> keys[j] in values
    ensures seq(|keys|, j requires 0 <= j < |keys| && keys[j] in values => values[keys[j]]) == MergedByName(s)
  {
  }

  /**
   * `const map = new Map(); for (const it of merged) map.set(it.name, it);
   * Array.from(map.values())`: a `Map` keeps a key at the position of its first
   * `set` and the value of its last.
   */
  method MergeByName(merged: seq<PokemonListItem>) returns (next: seq<PokemonListItem>)
    ensures next == MergedByName(merged)
  {
    var keys: seq<string> := [];
    var values: map<string, PokemonListItem> := map[];
    for i := 0 to |merged|
      invariant MapHolds(keys, values, merged[..i])
    {
      var it := merged[i];
      assert merged[..i + 1] == merged[..i] + [it];
      MapHoldsAfterSet(keys, values, merged[..i], it);
      if it.name !in values {
        keys := keys + [it.name];
      }
      values := values[it.name := it];
    }
    assert merged[..|merged|] == merged;
    MapValuesMerged(keys, values, merged);
    next := seq(|keys|, j requires 0 <= j < |keys| && keys[j] in values => values[keys[j]]);
  }

  /** Appending an entry makes it the last one under its name and leaves other names alone. */
  lemma LastIndexAppend(s: seq<PokemonListItem>, it: PokemonListItem)
    ensures forall n :: n in Names(s + [it]) ==>
      LastIndexWithName(s + [it], n) == if n == it.name then |s| else LastIndexWithName(s, n)
  {
    NamesConcat(s, [it]);
    forall n | n in Names(s + [it])
      ensures LastIndexWithName(s + [it], n) == if n == it.name then |s| else LastIndexWithName(s, n)
    {
      var k := LastIndexWithName(s + [it], n);
      if n != it.name {
        var j := LastIndexWithName(s, n);
        assert (s + [it])[j] == s[j];
        assert k < |s|;
        assert (s + [it])[k] == s[k];
        assert k == j;
      }
    }
  }

  /** The names after a merge are exactly those already loaded and those just fetched. */
  lemma MergedNamesAreUnion(prev: seq<PokemonListItem>, batch: seq<PokemonListItem>)
    ensures forall n :: n in Names(MergedByName(prev + batch)) <==> n in Names(prev) || n in Names(batch)
  {
    NamesConcat(prev, batch);
  }

  /** Each merged entry sits where its name was first seen: earlier slots hold earlier-seen names. */
  lemma MergedFirstSeenOrder(s: seq<PokemonListItem>, a: nat, b: nat)
    requires a < b < |MergedByName(s)|
    ensures IndexOf(Names(s), MergedByName(s)[a].name) < IndexOf(Names(s), MergedByName(s)[b].name)
  {
    DistinctFirstSeenOrder(Names(s), a, b);
  }

  /** Entries with pairwise distinct names merge to themselves, unchanged and in order. */
  lemma MergedOfDistinctNames(s: seq<PokemonListItem>)
    requires NoDup(Names(s))
    ensures MergedByName(s) == s
  {
    DistinctOfNoDup(Names(s));
    var r := MergedByName(s);
    forall j | 0 <= j < |s| ensures r[j] == s[j] {
      var k := LastIndexWithName(s, s[j].name);
      assert Names(s)[k] == Names(s)[j];
    }
  }

  /** `Distinct` of a longer input extends `Distinct` of its prefix. */
  lemma {:induction false} DistinctPrefix(a: seq<string>, b: seq<string>)
    ensures |Distinct(a)| <= |Distinct(a + b)| && Distinct(a + b)[..|Distinct(a)|] == Distinct(a)
    decreases |b|
  {
    if b == [] {
      assert a + b == a;
    } else {
      var b' := b[..|b| - 1];
      DistinctPrefix(a, b');
      assert a + b == (a + b') + [b[|b| - 1]];
      DistinctAppend(a + b', b[|b| - 1]);
    }
  }

  /** Loading a page never moves an entry already on screen: its name keeps its slot. */
  lemma MergeKeepsLoadedSlots(prev: seq<PokemonListItem>, batch: seq<PokemonListItem>)
    requires NoDup(Names(prev))
    ensures |MergedByName(prev + batch)| >= |prev|
    ensures forall j :: 0 <= j < |prev| ==> MergedByName(prev + batch)[j].name == prev[j].name
  {
    NamesConcat(prev, batch);
    DistinctPrefix(Names(prev), Names(batch));
    DistinctOfNoDup(Names(prev));
    var r := MergedByName(prev + batch);
    forall j | 0 <= j < |prev| ensures r[j].name == prev[j].name {
      assert Names(r)[j] == Distinct(Names(prev + batch))[..|prev|][j];
    }
  }

  /** `if (data.next)`: a missing or empty `next` link means there is no further page. */
  predicate HasNextPage(data: PokemonListResponse) {
    data.next.Some? && data.next.value != ""
  }

  /**
   * The list a successful `load` writes under `CacheKey`: the list it started
   * from when that is non-empty, otherwise the page just fetched.
   */
  function CachedList(prev: seq<PokemonListItem>, batch: seq<PokemonListItem>): seq<PokemonListItem> {
    if |prev| > 0 then prev else batch
  }

  /**
   * The list after a failed `load`: a non-empty list stays; an empty one is
   * replaced by the cached array when one can be read back.
   */
  function FallbackItems(prev: seq<PokemonListItem>, cached: Option<string>,
                         decode: string -> Decoded<PokemonListItem>): seq<PokemonListItem> {
    if |prev| > 0 then prev else ReadArray(cached, decode).GetOr(prev)
  }

  /** The state of `PokemonListScreen` that `load` reads and writes. */
  class ListLoader {
    var items: seq<PokemonListItem>
    var offset: nat
    var loading: bool
    var error: Option<string>
    var hasMore: bool
    const storage: KeyValueStore
    const encode: seq<PokemonListItem> -> string
    const decode: string -> Decoded<PokemonListItem>

    /** The initial `useState` values. */
    constructor (storage: KeyValueStore, encode: seq<PokemonListItem> -> string,
                 decode: string -> Decoded<PokemonListItem>)
      ensures items == [] && offset == 0 && !loading && error == None && hasMore
      ensures this.storage == storage && this.encode == encode && this.decode == decode
    {
      items, offset, loading, error, hasMore := [], 0, false, None, true;
      this.storage, this.encode, this.decode := storage, encode, decode;
    }

    /**
     * One call of `load`. `response` is what the network answers to the
     * request for the page at the current offset; `request` is the URL
     * requested, `None` when the guard returns before fetching.
     */
    method Load(response: FetchResult<PokemonListResponse>) returns (request: Option<string>)
      modifies this, storage
      ensures old(loading) || !old(hasMore) ==>
        request == None && unchanged(this) && unchanged(storage)
      ensures !old(loading) && old(hasMore) ==>
        request == Some(ListUrl(PageSize, old(offset))) && !loading
      ensures !old(loading) && old(hasMore) && response.Fetched? ==>
        && items == MergedByName(old(items) + response.data.results)
        && storage.entries == old(storage.entries)[CacheKey := encode(CachedList(old(items), response.data.results))]
        && error == None
        && (if HasNextPage(response.data) then offset == old(offset) + PageSize && hasMore
            else offset == old(offset) && !hasMore)
      ensures !old(loading) && old(hasMore) && response.FetchFailed? ==>
        && error == Some(response.message.GetOr(DefaultError))
        && offset == old(offset) && hasMore == old(hasMore)
        && unchanged(storage)
        && items == FallbackItems(old(items), old(storage.GetItem(CacheKey)), decode)
    {
      if loading || !hasMore {
        return None;
      }
      loading := true;
      error := None;
      request := Some(ListUrl(PageSize, offset));
      match response {
        case Fetched(data) =>
          var prev := items;
          items := MergeByName(prev + data.results);
          storage.SetItem(CacheKey, encode(if |prev| > 0 then prev else data.results));
          if HasNextPage(data) {
            offset := offset + PageSize;
          } else {
            hasMore := false;
          }
        case FetchFailed(message) =>
          error := Some(message.GetOr(DefaultError));
          if |items| == 0 {
            var cached := storage.GetItem(CacheKey);
            match ReadArray(cached, decode) {
              case Some(arr) => items := arr;
              case None =>
            }
          }
      }
      loading := false;
    }
  }

  /**
   * What a successful `load` writes to the cache is what a later failed
   * `load` on an empty list adopts, provided the cache entry was not changed
   * in between.
   */
  lemma CacheFallbackRestoresWritten(encode: seq<PokemonListItem> -> string,
                                     decode: string -> Decoded<PokemonListItem>,
                                     prev: seq<PokemonListItem>, batch: seq<PokemonListItem>)
    requires JsonRoundTrip(encode, decode)
    ensures FallbackItems([], Some(encode(CachedList(prev, batch))), decode) == CachedList(prev, batch)
  {
    ReadArrayOfWritten(encode, decode, CachedList(prev, batch));
  }
}

# Pokédex app core, modelled in Dafny

This project models the logic inside a small React Native Pokédex app, in the
app's own terms. It covers four parts.

- **The paginated Pokémon list** (`PokemonListScreen`). `ListLoader.Load` is one
  call of the screen's `load` handler, run on explicit state: `items`, `offset`,
  `loading`, `error` and `hasMore`.
  - The guard stops a second fetch while one is running, and any fetch after
    the last page.
  - Each page of 20 is merged into `items` by name, as a JavaScript `Map` does.
    `MergeByName` is the loop and `MergedByName` is its declarative
    specification: one entry per name, names in first-seen order, the value last
    seen.
  - The cache write, the offset and `hasMore` updates, the error message, and
    the fallback to the cached list are modelled as the code has them.
  - `IdFromUrl` reads the id out of a resource URL.
- **The favorites store** (`store/favorites.ts`).
  - `GetFavorites` is the tolerant decoder of the persisted list.
  - `AddName`, `RemoveName` and `ToggleName` are the set-like updates, with
    their round-trip lemmas.
  - `Registry` is the module-level listener array. `FavoritesHook` is one
    mounted `useFavorites()`. Its `Add`, `Remove` and `Toggle` set the hook's
    state, persist the list and notify every subscribed hook with the same list.
- **The favorites screen**.
  - `VisibleItems` is the trimmed, case-insensitive search filter.
  - `Render` is the spinner-or-list choice.
  - `FavoritesView.Refresh` is the effect that loads one detail per favorite,
    but only once the store is ready.
- **Pure helpers**.
  - The PokeAPI URL builders, with injectivity and round-trip lemmas.
  - `Capitalize` and the chip rules of `HeaderList`.

The JavaScript built-ins these use are modelled in their own modules. `JsString`
covers `String(n)`, `Number(s)` on digit strings, `split`,
`toLowerCase`/`toUpperCase`, `trim` and `includes`. `JsArray` covers
`Array.from(new Set(...))`, `indexOf`, `splice` of one element, `filter`, and
`filter(Boolean)` on the parts of a split string.
`Persistence` models AsyncStorage as a key→string store and JSON as an abstract
`encode`/`decode` pair. `Wrappers` has the `Option` type.

The network is a parameter. `ListLoader.Load` receives the answer to the request
it makes. `FavoritesView.Refresh` receives a function that answers each detail
URL.

Notes on the code's behaviour:
- `HeaderList` only renders chips. No screen filters or reloads the list by
  type.
- The list offset grows by the page size (20), not by the batch length. It grows
  only when the response's `next` link is truthy.
- The list written to the cache is the list from *before* the merge when that
  list is non-empty. Otherwise it is the raw batch. The two coincide with the
  merged list only when the merge adds or changes nothing, for example on a
  first page whose names are all different.
- `getFavorites` adopts a stored array as it is (`src/store/favorites.ts:11`).
  `add`, `remove` and `toggle` never introduce a repeated name, but a stored
  list that already holds one keeps it.
- Favorite details are fetched with `Promise.all` and no `catch`, so one failed
  lookup keeps the previous `items` whole. Failed lookups are not just left out.

## Model

| member | source | states |
|---|---|---|
| `PokemonList.ListLoader.Load` | src/screens/PokemonListScreen.tsx:29-62 | If `loading` is set or `hasMore` is false, nothing changes and nothing is requested. Otherwise the request is the list URL for limit 20 at the current offset, and `loading` ends false. On success, `items` is the by-name merge of the old items and the batch, and `error` is cleared. The cache key then holds the pre-merge items if there were any, else the raw batch. If `next` is truthy, `offset` grows by 20 and `hasMore` stays true. If not, `offset` is unchanged and `hasMore` becomes false. On failure, `error` is the thrown message or the default text. `offset`, `hasMore` and storage are unchanged. A non-empty list is kept. An empty list becomes the cached array only if the cache holds a non-empty string that decodes to an array. |
| `PokemonList.ListLoader.constructor` | src/screens/PokemonListScreen.tsx:22-26 | The loader starts with no items, offset 0, not loading, no error, and more pages to fetch. |
| `PokemonList.MergeByName` | src/screens/PokemonListScreen.tsx:36-39 | Filling a `Map` by name over the merged entries and taking its values gives exactly `MergedByName` of those entries. |
| `PokemonList.MergedByName` | src/screens/PokemonListScreen.tsx:35-41 | The merged names are the distinct names of the input in first-seen order, so none repeats. Each entry is the input's last entry with its name. |
| `PokemonList.LastIndexWithName` | src/screens/PokemonListScreen.tsx:38 | Returns the position of the last entry with the given name: that entry has the name and no later entry has it. |
| `PokemonList.MergedNamesAreUnion` | src/screens/PokemonListScreen.tsx:36-39 | After a merge, a name is present exactly when it was already loaded or was just fetched. |
| `PokemonList.MergedFirstSeenOrder` | src/screens/PokemonListScreen.tsx:37-39 | An earlier merged entry's name first appears earlier in the merged input than a later entry's name. |
| `PokemonList.MergeKeepsLoadedSlots` | src/screens/PokemonListScreen.tsx:35-41 | When the loaded items have distinct names, each keeps its slot after a page is merged in, and the list does not shrink. |
| `PokemonList.MergedOfDistinctNames` | src/screens/PokemonListScreen.tsx:35-41 | Entries whose names are all different merge to themselves, so a first page of 20 distinct names gives exactly those 20 items. |
| `PokemonList.MapHoldsAfterSet` | src/screens/PokemonListScreen.tsx:38 | One more `map.set(it.name, it)` keeps the map equal to the merge of the entries seen so far plus `it`. |
| `PokemonList.LastIndexAppend` | src/screens/PokemonListScreen.tsx:38 | After an entry is appended, it is the last entry under its own name, and the last entry of every other name does not move. |
| `PokemonList.CacheFallbackRestoresWritten` | src/screens/PokemonListScreen.tsx:42-55 | If JSON encoding round-trips, the list a successful `load` writes (`CachedList`, line 42) is the list that a later failed `load` on an empty list adopts (`FallbackItems`, lines 50-55). Both functions appear in `ListLoader.Load`'s contract. |
| `PokemonList.IdFromUrl` | src/screens/PokemonListScreen.tsx:15-19 | A URL without a slash is a bare id, so the id is its `Number`. `IdFromUrlLastSegment`, `IdFromUrlTrailingSlash` and `IdFromDetailUrl` state what it does on real URLs. |
| `PokemonList.HasNextPage` | src/screens/PokemonListScreen.tsx:43 | `data.next` is truthy: present and not "". `ListLoader.Load`'s contract uses it to choose between advancing the offset and clearing `hasMore`. |
| `PokemonList.IdFromUrlLastSegment` | src/screens/PokemonListScreen.tsx:15-19 | The id is the `Number` of the segment after the last slash. |
| `PokemonList.IdFromUrlTrailingSlash` | src/screens/PokemonListScreen.tsx:16-17 | A trailing slash does not change the id, because empty segments are filtered out. |
| `PokemonList.IdFromDetailUrl` | src/services/pokeapi.ts:35-36 | `getIdFromUrl` of the detail URL built from a number `n` returns `n`, with or without a trailing slash. |
| `PokeApi.ListUrl` | src/services/pokeapi.ts:29-30 | The list URL is `API_BASE/pokemon?limit=`, then the decimal limit, then `&offset=` and the decimal offset. Limit and offset default to 20 and 0. |
| `PokeApi.DetailUrl` | src/services/pokeapi.ts:35-36 | The detail URL is `API_BASE/pokemon/` followed by the name or the decimal id. `PokemonList.IdFromDetailUrl` reads the id back. |
| `PokeApi.ListUrlInjective` | src/services/pokeapi.ts:29-30 | The list URL `API_BASE/pokemon?limit=L&offset=O` determines both `L` and `O`. |
| `PokeApi.ArtworkUrl` | src/services/pokeapi.ts:41-43 | The artwork URL is the fixed sprite prefix, then the decimal id, then `.png`. |
| `PokeApi.ArtworkUrlInjective` | src/services/pokeapi.ts:41-43 | Different ids give different artwork URLs. |
| `Favorites.GetFavorites` | src/store/favorites.ts:6-16 | Returns `[]` in each of these cases: nothing stored, an empty string, a string that does not parse, or one that is not an array. Otherwise returns the stored array unchanged. |
| `Favorites.GetFavoritesOfWritten` | src/store/favorites.ts:18-20 | If JSON encoding round-trips, a list written by `setFavorites` is read back unchanged by `getFavorites`. |
| `Favorites.AddName` | src/store/favorites.ts:49 | The result has no duplicates and contains `name`. Its names are the old ones plus `name`. It is the old names, de-duplicated in first-occurrence order, with `name` appended only if it was absent. |
| `Favorites.AddNameToNoDup` | src/store/favorites.ts:49 | On a list without duplicates, adding a present name changes nothing. Adding an absent name appends it. |
| `Favorites.RemoveName` | src/store/favorites.ts:56 | `name` is gone, and every other name is present exactly when it was before. A list without repeated names stays without them. |
| `Favorites.RemoveNameKeepsOthers` | src/store/favorites.ts:56 | The result is a subsequence of the list. It has no copy of `name` and the same number of copies of every other name. |
| `Favorites.RemoveAbsentName` | src/store/favorites.ts:56 | Removing an absent name leaves the list unchanged. |
| `Favorites.ToggleName` | src/store/favorites.ts:62-65 | Toggling flips whether `name` is present and leaves whether any other name is present unchanged. A list without repeated names stays without them. |
| `Favorites.ToggleTwiceAbsent` | src/store/favorites.ts:62-65 | On a list without duplicates, toggling an absent name twice restores the exact list. |
| `Favorites.ToggleTwicePresent` | src/store/favorites.ts:62-65 | On a list without duplicates, toggling a present name twice gives the list without it, followed by it. The set of names is the same as before. |
| `Favorites.Registry.constructor` | src/store/favorites.ts:23 | The listener array starts empty. |
| `Favorites.Registry.Subscribe` | src/store/favorites.ts:27-28 | `subscribe` appends the listener. |
| `Favorites.Registry.Unsubscribe` | src/store/favorites.ts:29-32 | The returned unsubscribe removes the first occurrence of the listener if there is one, and otherwise changes nothing. Every other listener keeps its order. |
| `JsArray.RemoveFirst` | src/store/favorites.ts:30-31 | `indexOf` followed by `splice(i, 1)` when `i >= 0`. An absent value leaves the array as it is. Otherwise exactly one copy of the value is removed and every other element keeps its count. |
| `JsArray.RemoveFirstIsSubsequence` | src/store/favorites.ts:30-31 | The elements that remain after the splice keep their order. |
| `JsArray.RemoveFirstAppended` | src/store/favorites.ts:27-32 | Subscribing a new listener and then unsubscribing it restores the listener array. |
| `Favorites.Registry.Notify` | src/store/favorites.ts:24-26 | After `notify(names)`, every subscribed hook holds `names` as its favorites state. Its `ready` flag is unchanged. |
| `Favorites.FavoritesHook.constructor` | src/store/favorites.ts:36-37 | A hook starts with no favorites and not ready. |
| `Favorites.FavoritesHook.Mount` | src/store/favorites.ts:39-46 | Mounting subscribes the hook. When the stored list resolves, the hook holds what `getFavorites` decodes and becomes ready. |
| `Favorites.FavoritesHook.Unmount` | src/store/favorites.ts:44-45 | The cleanup unsubscribes the hook. |
| `Favorites.FavoritesHook.Add` | src/store/favorites.ts:48-53 | Three things are the same list: the hook's new state, the value stored under `favorites`, and the list every subscribed hook receives. That list is `AddName` of the old state. `ready` is unchanged. |
| `Favorites.FavoritesHook.Remove` | src/store/favorites.ts:55-60 | As for `Add`, with `RemoveName` of the old state. |
| `Favorites.FavoritesHook.Toggle` | src/store/favorites.ts:62-65 | As for `Add`, with `ToggleName` of the old state: `Remove` when the name is a favorite, `Add` otherwise. |
| `FavoritesScreen.VisibleItems` | src/screens/FavoritesScreen.tsx:48 | An empty query shows every item in its order. A non-empty query shows exactly the items whose lower-cased name contains the trimmed, lower-cased query. The result is always a subsequence of the items. |
| `FavoritesScreen.VisibleItemsIgnoresQueryCase` | src/screens/FavoritesScreen.tsx:48 | The search ignores the query's case: two queries that are equal once lower-cased show exactly the same items, in the same order. |
| `FavoritesScreen.WhiteSpaceQueryShowsAll` | src/screens/FavoritesScreen.tsx:48 | A query of white space only trims to "" and so shows every item. |
| `FavoritesScreen.VisibleItemsCount` | src/screens/FavoritesScreen.tsx:48 | A non-empty query keeps every copy of a matching item and no copy of any other. |
| `FavoritesScreen.Render` | src/screens/FavoritesScreen.tsx:42-48 | The spinner shows exactly when the store is not ready or details are loading. Otherwise the list shows the filtered items. |
| `FavoritesScreen.FavoritesView.constructor` | src/screens/FavoritesScreen.tsx:17-19 | The screen starts not loading, with no items. |
| `FavoritesScreen.FavoritesView.Refresh` | src/screens/FavoritesScreen.tsx:21-37 | When the store is not ready, nothing happens. When it is ready, `loading` ends false. If every detail fetch succeeds, `items` holds one `{name, id}` per favorite, in favorites order, taken from its fetched detail. If any fetch fails, `items` keeps its previous value. |
| `FavoritesScreen.EntriesOf` | src/screens/FavoritesScreen.tsx:25-31 | There is one entry per favorite. |
| `HeaderList.Capitalize` | src/components/HeaderList.tsx:28-30 | Length is preserved. The first character is upper-cased and the rest is left untouched. "" maps to "". |
| `HeaderList.CapitalizeIdempotent` | src/components/HeaderList.tsx:28-30 | Capitalizing twice gives the same result as capitalizing once. |
| `HeaderList.Chips` | src/components/HeaderList.tsx:12-15 | The "All" chip comes first, then one chip per category in the given order. "All" is highlighted exactly when `selected` is null, undefined or "", and pressing it selects null. A category chip shows the capitalized name, is highlighted exactly when `selected === name`, and pressing it selects its name. |
| `HeaderList.PressedChipIsTheActiveOne` | src/components/HeaderList.tsx:12-14 | If category names are distinct and non-empty, pressing a chip and rendering again highlights that chip and no other. |
| `HeaderList.AtMostOneActive` | src/components/HeaderList.tsx:12-14 | If category names are distinct and non-empty, no two chips are highlighted at once. |
| `Persistence.ReadArray` | src/screens/PokemonListScreen.tsx:52-55 | A stored string yields an array exactly when it is present, non-empty and decodes to an array. The array is then the decoded one. |
| `Persistence.KeyValueStore.GetItem` | src/store/favorites.ts:7 | `getItem` returns the stored string exactly when the key is present. |
| `Persistence.KeyValueStore.SetItem` | src/store/favorites.ts:19 | `setItem` replaces the value under its key and changes no other key. |
| `JsString.ParseNatToString` | src/screens/PokemonListScreen.tsx:18 | `Number(String(n))` is `n` for every natural number `n`. |
| `JsString.JoinSplit` | src/screens/PokemonListScreen.tsx:16 | Joining the parts of `split` with the separator gives back the original string. |
| `JsString.SplitJoin` | src/screens/PokemonListScreen.tsx:16 | Splitting a join of separator-free parts gives back those parts. |
| `JsString.Split` | src/screens/PokemonListScreen.tsx:16 | `split('/')` gives at least one part, and no part contains the separator. `JoinSplit` and `SplitJoin` prove it is the inverse of joining. |
| `JsArray.NonEmptyParts` | src/screens/PokemonListScreen.tsx:16 | `filter(Boolean)` keeps exactly the non-empty parts, in their order and with every copy, and no "". |
| `JsArray.NonEmptyPartsAppend` | src/screens/PokemonListScreen.tsx:16-17 | A part added at the end is kept, last, exactly when it is non-empty. So the last non-empty part is what `parts[parts.length - 1]` reads. |
| `JsString.LowerChar` | src/screens/FavoritesScreen.tsx:48 | Lower-casing one character leaves no ASCII capital letter, changes nothing but the ASCII capitals, and keeps white space white space. |
| `JsString.ToLower` | src/screens/FavoritesScreen.tsx:48 | On ASCII letters, `toLowerCase` keeps the length, lower-cases each character on its own, and leaves no capital letter. |
| `JsString.ToLowerTrim` | src/screens/FavoritesScreen.tsx:48 | `query.trim().toLowerCase()` equals `query.toLowerCase().trim()`, because lower-casing never turns white space into something else or back. |
| `JsString.Trim` | src/screens/FavoritesScreen.tsx:48 | `trim` returns the infix between leading and trailing white space. The result neither starts nor ends with white space. |
| `JsString.TrimAllWhiteSpace` | src/screens/FavoritesScreen.tsx:48 | A string made only of white space trims to "". |
| `JsString.Includes` | src/screens/FavoritesScreen.tsx:48 | `includes` holds exactly when the needle occurs at some position of the string. |
| `JsArray.Distinct` | src/store/favorites.ts:49 | `Array.from(new Set(s))` has no duplicates and holds exactly the values of `s`. |
| `JsArray.DistinctFirstSeenOrder` | src/store/favorites.ts:49 | `Array.from(new Set(s))` lists values in the order of their first occurrence in `s`. |
| `JsArray.IndexOf` | src/store/favorites.ts:30 | `indexOf` returns -1 exactly when the value is absent. Otherwise it returns the position of its first occurrence. |
| `JsArray.Filter` | src/store/favorites.ts:56 | `filter` keeps exactly the elements that satisfy the predicate. |
| `JsArray.FilterConcat` | src/store/favorites.ts:56 | Filtering a concatenation is concatenating the filtered parts, so `filter` keeps order. |

## Left out

- Network I/O. The axios calls are not modelled. A request is its URL, and its
  answer is a `FetchResult` parameter: the decoded body, or a failure whose
  `message` may be missing. HTTP status codes and response validation are not
  modelled.
- JSON. `JSON.stringify` and `JSON.parse` with `Array.isArray` are an abstract
  `encode`/`decode` pair. `JsonRoundTrip` states the round trip as an assumption
  of the lemmas that need it. The model takes a decoded array to have the
  element type it is read as, as the TypeScript cast does.
- AsyncStorage failures. The store is taken never to reject, as the three lines
  below say for each member concerned.
- PokemonList.ListLoader.Load: assumes `setItem` never rejects. In the code, a
  rejected write after the merge would also run the `catch` branch, with the
  merged `items` already set.
- Favorites.FavoritesHook.Add, Favorites.FavoritesHook.Remove: always notify.
  In the code, a rejected `setItem` (`src/store/favorites.ts:51`, `:58`) skips
  `notify`, so the other hooks would keep their old list.
- Favorites.FavoritesHook.Mount: always becomes ready. In the code, a rejected
  `getItem` (`src/store/favorites.ts:40`) leaves `ready` false.
- React machinery. Hooks, effects, re-rendering, batching of state updates and
  stale closures are not modelled. Each handler is a method on the current
  state. In particular, `load` reads the `items` of the render that created it,
  which is the pre-attempt list when one load runs at a time. `add` and `remove`
  read the hook's current `favorites` rather than a captured copy.
- Concurrency. Overlapping `load` calls, overlapping favorites mutations and
  the parallel fan-out of `Promise.all` are not modelled. `Refresh` fetches in
  favorites order and stops at the first failure. This gives the same outcome as
  `Promise.all` rejecting.
- `subscribe` returns a closure that unsubscribes. Here it is the separate
  `Registry.Unsubscribe` method. A listener is the hook whose
  `setFavoritesState` it is. Delivery order is unobservable because every
  listener receives the same list.
- IdFromUrlLastSegment: `Number` is modelled only on non-empty decimal digit
  strings. Other segments give `None` where JavaScript may still give a number
  (signs, decimals, hex, exponents, surrounding white space). Numbers are
  unbounded here. JavaScript's `Number` loses precision above 2^53, which no
  Pokémon id or offset comes near.
- PokeApi.ArtworkUrl: ids are natural numbers. Negative, fractional or NaN ids
  and the URLs built from them are not modelled. The same holds for numeric
  `nameOrId` in the detail URL. `String(n)` is plain decimal for every `n` here.
  JavaScript switches to exponent form from 1e21.
- JsString.ToLower: lower-casing covers the ASCII letters only and so always
  keeps the length. In JavaScript, `toLowerCase` maps other letters too, and
  some of them change length (`"İ".toLowerCase()` has length 2).
- FavoritesScreen.VisibleItems: lower-casing covers the ASCII letters only. Full
  Unicode case mapping is not modelled.
- HeaderList.Capitalize: upper-casing covers the ASCII letters only. Unicode
  mappings that change length (such as `ß` to `SS`) are not modelled, so length
  is always preserved here.
- Presentation. Styling, icons, animation, navigation wiring and the detail
  screen are not modelled. The detail screen is a single fetch with rendering.

/**
 * The favorites store: the persisted list of favorite names, the set-like
 * add/remove/toggle updates, and the listener registry through which every
 * mounted `useFavorites` sees each change.
 */
module Favorites {
  import opened Wrappers
  import opened JsArray
  import opened Persistence

  /** The AsyncStorage key of the favorites list. */
  const Key: string := "favorites"

  /**
   * `getFavorites` once the stored string is in hand: the stored array, or
   * `[]` when nothing (or "") is stored, it does not parse, or it is not an array.
   */
  function GetFavorites(stored: Option<string>, decode: string -> Decoded<string>): (names: seq<string>)
    ensures stored.None? || stored.value == "" || !decode(stored.value).ArrayOf? ==> names == []
    ensures stored.Some? && stored.value != "" && decode(stored.value).ArrayOf? ==>
      names == decode(stored.value).elems
  {
    ReadArray(stored, decode).GetOr([])
  }

  /** A list written by `setFavorites` is what `getFavorites` reads back. */
  lemma GetFavoritesOfWritten(encode: seq<string> -> string, decode: string -> Decoded<string>, names: seq<string>)
    requires JsonRoundTrip(encode, decode)
    ensures GetFavorites(Some(encode(names)), decode) == names
  {
    ReadArrayOfWritten(encode, decode, names);
  }

  /**
   * `Array.from(new Set([...favorites, name]))`: without repeats, existing
   * names in their first-occurrence order, `name` last unless already there.
   */
  function AddName(favorites: seq<string>, name: string): (r: seq<string>)
    ensures NoDup(r) && name in r
    ensures forall x :: x in r <==> x in favorites || x == name
    ensures r == Distinct(favorites) + if name in favorites then [] else [name]
  {
    DistinctAppend(favorites, name);
    Distinct(favorites + [name])
  }

  /** On a list without repeats, adding keeps the list and appends `name` only when it is absent. */
  lemma AddNameToNoDup(favorites: seq<string>, name: string)
    requires NoDup(favorites)
    ensures AddName(favorites, name) == if name in favorites then favorites else favorites + [name]
  {
    DistinctOfNoDup(favorites);
  }

  function NotEqualTo(name: string): string -> bool {
    n => n != name
  }

  /** `favorites.filter(n => n !== name)`. */
  function RemoveName(favorites: seq<string>, name: string): (r: seq<string>)
    ensures name !in r
    ensures forall x :: x != name ==> (x in r <==> x in favorites)
    ensures NoDup(favorites) ==> NoDup(r)
  {
    FilterNoDup(favorites, NotEqualTo(name));
    Filter(favorites, NotEqualTo(name))
  }

  /** Removing drops every copy of `name` and keeps every other entry, with its multiplicity, in its order. */
  lemma RemoveNameKeepsOthers(favorites: seq<string>, name: string)
    ensures IsSubsequence(RemoveName(favorites, name), favorites)
    ensures forall x :: multiset(RemoveName(favorites, name))[x] == if x == name then 0 else multiset(favorites)[x]
  {
    FilterIsSubsequence(favorites, NotEqualTo(name));
    forall x ensures multiset(RemoveName(favorites, name))[x] == if x == name then 0 else multiset(favorites)[x] {
      FilterCount(favorites, NotEqualTo(name), x);
    }
  }

  /** Removing an absent name changes nothing. */
  lemma RemoveAbsentName(favorites: seq<string>, name: string)
    requires name !in favorites
    ensures RemoveName(favorites, name) == favorites
  {
    FilterKeepAll(favorites, NotEqualTo(name));
  }

  /** `toggle`: remove a present name, add an absent one. */
  function ToggleName(favorites: seq<string>, name: string): (r: seq<string>)
    ensures name in r <==> name !in favorites
    ensures forall x :: x != name ==> (x in r <==> x in favorites)
    ensures NoDup(favorites) ==> NoDup(r)
  {
    if name in favorites then RemoveName(favorites, name) else AddName(favorites, name)
  }

  /** Toggling an absent name twice restores the exact list. */
  lemma ToggleTwiceAbsent(favorites: seq<string>, name: string)
    requires NoDup(favorites) && name !in favorites
    ensures ToggleName(ToggleName(favorites, name), name) == favorites
  {
    AddNameToNoDup(favorites, name);
    FilterConcat(favorites, [name], NotEqualTo(name));
    RemoveAbsentName(favorites, name);
  }

  /** Toggling a present name twice restores the same names, with `name` moved to the end. */
  lemma ToggleTwicePresent(favorites: seq<string>, name: string)
    requires NoDup(favorites) && name in favorites
    ensures ToggleName(ToggleName(favorites, name), name) == RemoveName(favorites, name) + [name]
    ensures forall x :: x in ToggleName(ToggleName(favorites, name), name) <==> x in favorites
  {
    AddNameToNoDup(RemoveName(favorites, name), name);
  }

  /** The module-level `listeners` array: every mounted `useFavorites`, in subscription order. */
  class Registry {
    var listeners: seq<FavoritesHook>

    constructor ()
      ensures listeners == []
    {
      listeners := [];
    }

    /** `subscribe(l)`: `listeners.push(l)`. */
    method Subscribe(l: FavoritesHook)
      modifies this
      ensures listeners == old(listeners) + [l]
    {
      listeners := listeners + [l];
    }

    /** The function `subscribe` returns: removes the first occurrence of `l`, if any. */
    method Unsubscribe(l: FavoritesHook)
      modifies this
      ensures l !in old(listeners) ==> listeners == old(listeners)
      ensures l in old(listeners) ==> multiset(listeners) == multiset(old(listeners)) - multiset{l}
      ensures listeners == RemoveFirst(old(listeners), l)
    {
      var i := IndexOf(listeners, l);
      if i >= 0 {
        listeners := listeners[..i] + listeners[i + 1..];
      }
      assert listeners == RemoveFirst(old(listeners), l);
    }

    /**
     * `notify(names)`: calls every listener, in order, with the same list;
     * a listener is a hook's `setFavoritesState`.
     */
    method Notify(names: seq<string>)
      modifies listeners
      ensures forall h :: h in listeners ==> h.favorites == names && h.ready == old(h.ready)
    {
      for i := 0 to |listeners|
        invariant forall j :: 0 <= j < i ==> listeners[j].favorites == names
        invariant forall h :: h in listeners ==> h.ready == old(h.ready)
      {
        listeners[i].favorites := names;
      }
    }
  }

  /** The state of one mounted `useFavorites()` and the handlers it returns. */
  class FavoritesHook {
    var favorites: seq<string>
    var ready: bool
    const storage: KeyValueStore
    const registry: Registry
    const encode: seq<string> -> string
    const decode: string -> Decoded<string>

    /** The initial `useState` values. */
    constructor (storage: KeyValueStore, registry: Registry,
                 encode: seq<string> -> string, decode: string -> Decoded<string>)
      ensures favorites == [] && !ready
      ensures this.storage == storage && this.registry == registry
      ensures this.encode == encode && this.decode == decode
    {
      favorites, ready := [], false;
      this.storage, this.registry := storage, registry;
      this.encode, this.decode := encode, decode;
    }

    /**
     * The mount effect: subscribes this hook, then, when `getFavorites`
     * resolves, adopts the stored list and becomes ready.
     */
    method Mount()
      modifies this, registry
      ensures registry.listeners == old(registry.listeners) + [this]
      ensures favorites == GetFavorites(storage.GetItem(Key), decode) && ready
    {
      registry.Subscribe(this);
      favorites := GetFavorites(storage.GetItem(Key), decode);
      ready := true;
    }

    /** The effect's cleanup: unsubscribes this hook. */
    method Unmount()
      modifies registry
      ensures registry.listeners == RemoveFirst(old(registry.listeners), this)
    {
      registry.Unsubscribe(this);
    }

    /** `add(name)`: the new list becomes this hook's state, is persisted, and is sent to every listener. */
    method Add(name: string)
      modifies this, storage, registry.listeners
      ensures favorites == AddName(old(favorites), name) && ready == old(ready)
      ensures storage.entries == old(storage.entries)[Key := encode(favorites)]
      ensures forall h :: h in registry.listeners ==> h.favorites == favorites && h.ready == old(h.ready)
    {
      var next := AddName(favorites, name);
      favorites := next;
      storage.SetItem(Key, encode(next));
      registry.Notify(next);
    }

    /** `remove(name)`: as `add`, with the list lacking `name`. */
    method Remove(name: string)
      modifies this, storage, registry.listeners
      ensures favorites == RemoveName(old(favorites), name) && ready == old(ready)
      ensures storage.entries == old(storage.entries)[Key := encode(favorites)]
      ensures forall h :: h in registry.listeners ==> h.favorites == favorites && h.ready == old(h.ready)
    {
      var next := RemoveName(favorites, name);
      favorites := next;
      storage.SetItem(Key, encode(next));
      registry.Notify(next);
    }

    /** `toggle(name)`: `remove` when `name` is a favorite, `add` otherwise. */
    method Toggle(name: string)
      modifies this, storage, registry.listeners
      ensures favorites == ToggleName(old(favorites), name) && ready == old(ready)
      ensures storage.entries == old(storage.entries)[Key := encode(favorites)]
      ensures forall h :: h in registry.listeners ==> h.favorites == favorites && h.ready == old(h.ready)
    {
      if name in favorites {
        Remove(name);
      } else {
        Add(name);
      }
    }
  }
}

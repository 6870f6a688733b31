/**
 * AsyncStorage and JSON as the app uses them: a key/value store of strings,
 * and reading back a stored JSON array.
 */
module Persistence {
  import opened Wrappers

  /**
   * What `JSON.parse` followed by `Array.isArray` makes of a stored string:
   * it throws, it yields something that is not an array, or it yields an array.
   */
  datatype Decoded<T> = Malformed | NotArray | ArrayOf(elems: seq<T>)

  /** `JSON.stringify` and `JSON.parse` undo each other on arrays, and an array never encodes to "". */
  ghost predicate JsonRoundTrip<T(!new)>(encode: seq<T> -> string, decode: string -> Decoded<T>) {
    forall xs :: encode(xs) != "" && decode(encode(xs)) == ArrayOf(xs)
  }

  /** AsyncStorage: one string per key, kept across restarts. */
  class KeyValueStore {
    var entries: map<string, string>

    constructor (initial: map<string, string>)
      ensures entries == initial
    {
      entries := initial;
    }

    /** `getItem(key)`: the stored string, or null. */
    function GetItem(key: string): (v: Option<string>)
      reads this
      ensures v.Some? <==> key in entries
      ensures v.Some? ==> v.value == entries[key]
    {
      if key in entries then Some(entries[key]) else None
    }

    /** `setItem(key, value)`: replaces the value under `key` and no other. */
    method SetItem(key: string, value: string)
      modifies this
      ensures entries == old(entries)[key := value]
    {
      entries := entries[key := value];
    }
  }

  /**
   * `if (stored) { const arr = JSON.parse(stored); if (Array.isArray(arr)) ... }`:
   * the array held by a stored string; none when nothing is stored, the
   * string is empty (falsy), it does not parse, or it is not an array.
   */
  function ReadArray<T>(stored: Option<string>, decode: string -> Decoded<T>): (r: Option<seq<T>>)
    ensures r.Some? <==> stored.Some? && stored.value != "" && decode(stored.value).ArrayOf?
    ensures r.Some? ==> r.value == decode(stored.value).elems
  {
    if stored.Some? && stored.value != "" then
      match decode(stored.value)
      case ArrayOf(elems) => Some(elems)
      case _ => None
    else None
  }

  /** What was written as JSON is read back as the same array. */
  lemma ReadArrayOfWritten<T(!new)>(encode: seq<T> -> string, decode: string -> Decoded<T>, xs: seq<T>)
    requires JsonRoundTrip(encode, decode)
    ensures ReadArray(Some(encode(xs)), decode) == Some(xs)
  {
    assert encode(xs) != "" && decode(encode(xs)) == ArrayOf(xs);
  }
}

/** The row of category chips: "All" first, then one chip per category. */
module HeaderList {
  import opened Wrappers
  import opened JsString
  import opened JsArray

  /** `capitalize`: the first character upper-cased, the rest untouched; "" stays "". */
  function Capitalize(s: string): (r: string)
    ensures |r| == |s|
    ensures s != [] ==> r[0] == UpperChar(s[0]) && r[1..] == s[1..]
  {
    if s == [] then [] else [UpperChar(s[0])] + s[1..]
  }

  /** Capitalizing twice is capitalizing once. */
  lemma CapitalizeIdempotent(s: string)
    ensures Capitalize(Capitalize(s)) == Capitalize(s)
  {
  }

  /** A chip: its caption (the `label` prop), whether it is highlighted, and what pressing it selects. */
  datatype Chip = Chip(caption: string, active: bool, selects: Option<string>)

  /** `!selected`: no category is chosen (null, undefined or ""). */
  predicate AllActive(selected: Option<string>) {
    selected.None? || selected.value == ""
  }

  /** The chip of one category: highlighted when it is the selection, pressing it selects it. */
  function CategoryChip(name: string, selected: Option<string>): Chip {
    Chip(Capitalize(name), selected == Some(name), Some(name))
  }

  /** The chips `HeaderList` renders for `categories` and the current `selected`. */
  function Chips(categories: seq<string>, selected: Option<string>): (chips: seq<Chip>)
    ensures |chips| == |categories| + 1
    ensures chips[0] == Chip("All", AllActive(selected), None)
    ensures forall i :: 0 <= i < |categories| ==> chips[i + 1] == CategoryChip(categories[i], selected)
  {
    [Chip("All", AllActive(selected), None)]
      + seq(|categories|, i requires 0 <= i < |categories| => CategoryChip(categories[i], selected))
  }

  /** Whether the chip at position `j` is highlighted, and what pressing it selects. */
  lemma ChipAt(categories: seq<string>, selected: Option<string>, j: nat)
    requires j < |categories| + 1
    ensures Chips(categories, selected)[j].active
      == if j == 0 then AllActive(selected) else selected == Some(categories[j - 1])
    ensures Chips(categories, selected)[j].selects
      == if j == 0 then None else Some(categories[j - 1])
  {
  }

  /**
   * With distinct, non-empty category names, pressing chip `k` and rendering
   * again highlights chip `j` exactly when `j` is `k`.
   */
  lemma PressedChipIsTheActiveOne(categories: seq<string>, selected: Option<string>, k: nat, j: nat)
    requires NoDup(categories) && "" !in categories
    requires k < |categories| + 1 && j < |categories| + 1
    ensures Chips(categories, Chips(categories, selected)[k].selects)[j].active <==> j == k
  {
    ChipAt(categories, selected, k);
    var pressed := Chips(categories, selected)[k].selects;
    ChipAt(categories, pressed, j);
    var after := Chips(categories, pressed)[j].active;
    if k == 0 {
      assert pressed == None;
      assert after <==> j == 0;
    } else {
      var name := categories[k - 1];
      assert pressed == Some(name);
      if j == 0 {
        assert name in categories;
        assert !AllActive(pressed);
      } else if j == k {
        assert after;
      } else {
        assert categories[j - 1] != name;
        assert !after;
      }
    }
  }

  /** With distinct, non-empty category names, at most one chip is highlighted. */
  lemma AtMostOneActive(categories: seq<string>, selected: Option<string>, a: nat, b: nat)
    requires NoDup(categories) && "" !in categories
    requires a < b < |categories| + 1
    ensures !(Chips(categories, selected)[a].active && Chips(categories, selected)[b].active)
  {
    ChipAt(categories, selected, a);
    ChipAt(categories, selected, b);
    assert categories[b - 1] in categories;
    if a > 0 {
      assert categories[a - 1] != categories[b - 1];
    }
  }
}

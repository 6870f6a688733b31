/**
 * The JavaScript array built-ins the app relies on: `Array.from(new Set(s))`,
 * `indexOf`, `splice` of one element, `filter`, and `filter(Boolean)` on
 * the parts of a split string.
 */
module JsArray {

  /** No value occurs twice. */
  predicate NoDup<T(==)>(s: seq<T>) {
    forall i, j :: 0 <= i < j < |s| ==> s[i] != s[j]
  }

  /** `a` is `b` with some elements left out, the rest in their order in `b`. */
  predicate IsSubsequence<T(==)>(a: seq<T>, b: seq<T>)
    decreases |b|
  {
    a == [] || (b != [] && ((a[0] == b[0] && IsSubsequence(a[1..], b[1..])) || IsSubsequence(a, b[1..])))
  }

  /**
   * `s.indexOf(x)`: the position of the first `x` in `s`, or -1 when `x`
   * does not occur.
   */
  function IndexOf<T(==)>(s: seq<T>, x: T): (i: int)
    ensures -1 <= i < |s|
    ensures i >= 0 <==> x in s
    ensures i >= 0 ==> s[i] == x && x !in s[..i]
    decreases |s|
  {
    if s == [] then -1
    else if s[0] == x then 0
    else
      var k := IndexOf(s[1..], x);
      assert k >= 0 ==> s[..k + 1] == [s[0]] + s[1..][..k];
      if k < 0 then -1 else k + 1
  }

  /**
   * `const i = s.indexOf(x); if (i >= 0) s.splice(i, 1)`: drops the first
   * occurrence of `x`, if any.
   */
  function RemoveFirst<T(==)>(s: seq<T>, x: T): (r: seq<T>)
    ensures x !in s ==> r == s
    ensures x in s ==> |r| == |s| - 1 && multiset(r) == multiset(s) - multiset{x}
  {
    var i := IndexOf(s, x);
    if i < 0 then s
    else
      assert s == s[..i] + [s[i]] + s[i + 1..];
      s[..i] + s[i + 1..]
  }

  /** Appending an absent value and removing its first occurrence restores the sequence. */
  lemma RemoveFirstAppended<T>(s: seq<T>, x: T)
    requires x !in s
    ensures RemoveFirst(s + [x], x) == s
  {
    var t := s + [x];
    assert t[..|s|] == s;
    IndexOfFirst(t, x, |s|);
    assert t[..|s|] + t[|s| + 1..] == s;
  }

  /** Removing the first `x` leaves every other element, in order, where it was relative to the rest. */
  lemma {:induction false} RemoveFirstIsSubsequence<T>(s: seq<T>, x: T)
    ensures IsSubsequence(RemoveFirst(s, x), s)
  {
    var i := IndexOf(s, x);
    if i < 0 {
      SubsequenceReflexive(s);
    } else {
      SkipOneIsSubsequence(s, i);
    }
  }

  lemma {:induction false} SubsequenceReflexive<T>(s: seq<T>)
    ensures IsSubsequence(s, s)
    decreases |s|
  {
    if s != [] {
      SubsequenceReflexive(s[1..]);
    }
  }

  lemma {:induction false} SkipOneIsSubsequence<T>(s: seq<T>, i: nat)
    requires i < |s|
    ensures IsSubsequence(s[..i] + s[i + 1..], s)
    decreases i
  {
    var r := s[..i] + s[i + 1..];
    if i == 0 {
      assert r == s[1..];
      SubsequenceReflexive(s[1..]);
    } else {
      SkipOneIsSubsequence(s[1..], i - 1);
      assert r[0] == s[0];
      assert r[1..] == s[1..][..i - 1] + s[1..][i..];
    }
  }

  /**
   * `Array.from(new Set(s))`: each value once, at the position where it
   * first occurs in `s`.
   */
  function Distinct<T(==,!new)>(s: seq<T>): (r: seq<T>)
    ensures NoDup(r)
    ensures forall x :: x in r <==> x in s
    decreases |s|
  {
    if s == [] then []
    else
      var d := Distinct(s[..|s| - 1]);
      var x := s[|s| - 1];
      assert s == s[..|s| - 1] + [x];
      if x in d then d else d + [x]
  }

  /** A sequence without repeats passes through `Distinct` unchanged. */
  lemma {:induction false} DistinctOfNoDup<T(!new)>(s: seq<T>)
    requires NoDup(s)
    ensures Distinct(s) == s
    decreases |s|
  {
    if s != [] {
      var init := s[..|s| - 1];
      assert NoDup(init);
      DistinctOfNoDup(init);
      assert s[|s| - 1] !in init;
      assert init + [s[|s| - 1]] == s;
    }
  }

  /** Appending one value to the input of `Distinct`. */
  lemma DistinctAppend<T(!new)>(s: seq<T>, x: T)
    ensures Distinct(s + [x]) == if x in s then Distinct(s) else Distinct(s) + [x]
  {
    assert (s + [x])[..|s|] == s;
  }

  /** The first position holding `x` is the one `IndexOf` returns. */
  lemma {:induction false} IndexOfFirst<T>(s: seq<T>, x: T, k: nat)
    requires k < |s| && s[k] == x && x !in s[..k]
    ensures IndexOf(s, x) == k
    decreases k
  {
    if k > 0 {
      assert s[..k][0] == s[0];
      assert s[1..][..k - 1] == s[..k][1..];
      IndexOfFirst(s[1..], x, k - 1);
    }
  }

  /** `IndexOf` over a longer sequence agrees on values already in the prefix. */
  lemma IndexOfAppend<T>(s: seq<T>, t: seq<T>, x: T)
    requires x in s
    ensures IndexOf(s + t, x) == IndexOf(s, x)
  {
    var i := IndexOf(s, x);
    assert (s + t)[..i] == s[..i];
    IndexOfFirst(s + t, x, i);
  }

  /**
   * `Distinct` keeps first-occurrence order: an earlier value of the result
   * first occurs earlier in the input.
   */
  lemma {:induction false} DistinctFirstSeenOrder<T(!new)>(s: seq<T>, a: nat, b: nat)
    requires a < b < |Distinct(s)|
    ensures IndexOf(s, Distinct(s)[a]) < IndexOf(s, Distinct(s)[b])
    decreases |s|
  {
    var init := s[..|s| - 1];
    var x := s[|s| - 1];
    var d := Distinct(init);
    assert s == init + [x];
    DistinctAppend(init, x);
    var ya, yb := Distinct(s)[a], Distinct(s)[b];
    assert ya == d[a];
    IndexOfAppend(init, [x], ya);
    if b < |d| {
      DistinctFirstSeenOrder(init, a, b);
      IndexOfAppend(init, [x], yb);
    } else {
      assert yb == x && x !in init;
      assert s[..|init|] == init;
      IndexOfFirst(s, x, |init|);
    }
  }

  /** `s.filter(p)`. */
  function Filter<T(==,!new)>(s: seq<T>, p: T -> bool): (r: seq<T>)
    ensures forall x :: x in r <==> x in s && p(x)
    decreases |s|
  {
    if s == [] then []
    else
      var rest := Filter(s[1..], p);
      assert s == [s[0]] + s[1..];
      if p(s[0]) then [s[0]] + rest else rest
  }

  /** What `filter` keeps stays in its original order. */
  lemma {:induction false} FilterIsSubsequence<T(!new)>(s: seq<T>, p: T -> bool)
    ensures IsSubsequence(Filter(s, p), s)
    decreases |s|
  {
    if s != [] {
      FilterIsSubsequence(s[1..], p);
      var rest := Filter(s[1..], p);
      if p(s[0]) {
        assert ([s[0]] + rest)[1..] == rest;
      }
    }
  }

  /** `filter` keeps every copy of a value it accepts and no copy of one it rejects. */
  lemma {:induction false} FilterCount<T(!new)>(s: seq<T>, p: T -> bool, x: T)
    ensures multiset(Filter(s, p))[x] == if p(x) then multiset(s)[x] else 0
    decreases |s|
  {
    if s != [] {
      FilterCount(s[1..], p, x);
      assert s == [s[0]] + s[1..];
    }
  }

  /** `FilterCount` for every value at once. */
  lemma FilterCounts<T(!new)>(s: seq<T>, p: T -> bool)
    ensures forall x :: multiset(Filter(s, p))[x] == if p(x) then multiset(s)[x] else 0
  {
    forall x ensures multiset(Filter(s, p))[x] == if p(x) then multiset(s)[x] else 0 {
      FilterCount(s, p, x);
    }
  }

  /** Two predicates that agree on every value filter alike. */
  lemma {:induction false} FilterAgree<T(!new)>(s: seq<T>, p: T -> bool, q: T -> bool)
    requires forall x :: p(x) == q(x)
    ensures Filter(s, p) == Filter(s, q)
    decreases |s|
  {
    if s != [] {
      FilterAgree(s[1..], p, q);
    }
  }

  /** Filtering distributes over concatenation: it keeps the relative order of what it keeps. */
  lemma {:induction false} FilterConcat<T(!new)>(a: seq<T>, b: seq<T>, p: T -> bool)
    ensures Filter(a + b, p) == Filter(a, p) + Filter(b, p)
    decreases |a|
  {
    if a == [] {
      assert a + b == b;
    } else {
      var ab := a + b;
      assert ab[0] == a[0];
      assert ab[1..] == a[1..] + b;
      FilterConcat(a[1..], b, p);
      if p(a[0]) {
        assert Filter(ab, p) == [a[0]] + Filter(a[1..] + b, p);
      } else {
        assert Filter(ab, p) == Filter(a[1..] + b, p);
      }
    }
  }

  /** A filter that keeps every element is the identity. */
  lemma {:induction false} FilterKeepAll<T(!new)>(s: seq<T>, p: T -> bool)
    requires forall i :: 0 <= i < |s| ==> p(s[i])
    ensures Filter(s, p) == s
    decreases |s|
  {
    if s != [] {
      FilterKeepAll(s[1..], p);
    }
  }

  /** Filtering a sequence without repeats gives one without repeats. */
  lemma {:induction false} FilterNoDup<T(!new)>(s: seq<T>, p: T -> bool)
    ensures NoDup(s) ==> NoDup(Filter(s, p))
    decreases |s|
  {
    if s != [] && NoDup(s) {
      assert NoDup(s[1..]);
      FilterNoDup(s[1..], p);
      assert s[0] !in s[1..];
    }
  }

  /** Cutting at the first separator recovers what was written on either side of it. */
  lemma SplitAtFirst<T>(x: seq<T>, y: seq<T>, x': seq<T>, y': seq<T>, sep: T)
    requires sep !in x && sep !in x'
    requires x + [sep] + y == x' + [sep] + y'
    ensures x == x' && y == y'
  {
    var s := x + [sep] + y;
    assert s[..|x|] == x;
    IndexOfFirst(s, sep, |x|);
    assert s[..|x'|] == x';
    IndexOfFirst(s, sep, |x'|);
    assert x == s[..|x|] && y == s[|x| + 1..];
    assert x' == s[..|x'|] && y' == s[|x'| + 1..];
  }

  /** `Boolean(p)` for a string: only "" is falsy. */
  predicate IsNonEmpty(p: string) { p != [] }

  /** `parts.filter(Boolean)`: the non-empty parts, in their order, each with all its copies. */
  function NonEmptyParts(parts: seq<string>): (r: seq<string>)
    ensures forall p :: p in r <==> p in parts && p != []
    ensures IsSubsequence(r, parts)
    ensures forall p :: multiset(r)[p] == if p == [] then 0 else multiset(parts)[p]
  {
    FilterIsSubsequence(parts, IsNonEmpty);
    FilterCounts(parts, IsNonEmpty);
    Filter(parts, IsNonEmpty)
  }

  /** One more part is kept at the end exactly when it is non-empty. */
  lemma NonEmptyPartsAppend(parts: seq<string>, p: string)
    ensures NonEmptyParts(parts + [p]) == NonEmptyParts(parts) + if p != [] then [p] else []
  {
    FilterConcat(parts, [p], IsNonEmpty);
    assert [p][1..] == [];
  }
}

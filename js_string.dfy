/**
 * The JavaScript string and number built-ins the app relies on:
 * `String(n)` and `Number(s)` on decimal digit strings, `split`,
 * `toLowerCase`/`toUpperCase`, `trim` and `includes`.
 */
module JsString {
  import opened Wrappers

  predicate IsDigit(c: char) { '0' <= c <= '9' }

  predicate AllDigits(s: string) {
    forall i :: 0 <= i < |s| ==> IsDigit(s[i])
  }

  function DigitChar(d: nat): (c: char)
    requires d < 10
    ensures IsDigit(c)
  {
    (48 + d) as char
  }

  function DigitValue(c: char): (d: nat)
    requires IsDigit(c)
    ensures d < 10 && DigitChar(d) == c
  {
    (c as int) - 48
  }

  /** `String(n)` for a non-negative integer: its decimal digits, no leading zero. */
  function NatToString(n: nat): (s: string)
    ensures |s| > 0 && AllDigits(s)
    ensures s[0] == '0' ==> n == 0
    decreases n
  {
    if n < 10 then [DigitChar(n)] else NatToString(n / 10) + [DigitChar(n % 10)]
  }

  /** The value of a string of decimal digits, read most significant digit first. */
  function DigitsValue(s: string): nat
    requires AllDigits(s)
  {
    if s == [] then 0 else DigitsValue(s[..|s| - 1]) * 10 + DigitValue(s[|s| - 1])
  }

  /**
   * `Number(s)` restricted to what the app feeds it: a non-empty string of
   * decimal digits gives its value; anything else is `None` (JavaScript's NaN).
   */
  function ParseNat(s: string): (r: Option<nat>)
    ensures r.Some? <==> |s| > 0 && AllDigits(s)
  {
    if |s| > 0 && AllDigits(s) then Some(DigitsValue(s)) else None
  }

  lemma {:induction false} DigitsValueOfNatToString(n: nat)
    ensures DigitsValue(NatToString(n)) == n
    decreases n
  {
    if n >= 10 {
      DigitsValueOfNatToString(n / 10);
      var s := NatToString(n / 10);
      var t := s + [DigitChar(n % 10)];
      assert t[..|t| - 1] == s;
    }
  }

  /** `Number(String(n)) === n`: reading back the decimal form gives the number. */
  lemma ParseNatToString(n: nat)
    ensures ParseNat(NatToString(n)) == Some(n)
  {
    DigitsValueOfNatToString(n);
  }

  /** Distinct numbers have distinct decimal forms. */
  lemma NatToStringInjective(a: nat, b: nat)
    requires NatToString(a) == NatToString(b)
    ensures a == b
  {
    ParseNatToString(a);
    ParseNatToString(b);
  }

  /**
   * `s.split(sep)`: the maximal runs between separators, in order; the empty
   * string gives `[""]` and a trailing separator gives a trailing `""`.
   */
  function Split(s: string, sep: char): (parts: seq<string>)
    ensures |parts| >= 1
    ensures forall i :: 0 <= i < |parts| ==> sep !in parts[i]
    decreases |s|
  {
    if s == [] then [[]]
    else
      var init := Split(s[..|s| - 1], sep);
      var c := s[|s| - 1];
      if c == sep then init + [[]]
      else init[..|init| - 1] + [init[|init| - 1] + [c]]
  }

  /** `parts.join(sep)`, the inverse of `Split`. */
  function Join(parts: seq<string>, sep: char): string
    requires |parts| >= 1
  {
    if |parts| == 1 then parts[0]
    else Join(parts[..|parts| - 1], sep) + [sep] + parts[|parts| - 1]
  }

  /** Extending the last part extends the joined string. */
  lemma JoinExtendLast(parts: seq<string>, sep: char, c: char)
    requires |parts| >= 1
    ensures Join(parts[..|parts| - 1] + [parts[|parts| - 1] + [c]], sep) == Join(parts, sep) + [c]
  {
    var k := |parts| - 1;
    var parts' := parts[..k] + [parts[k] + [c]];
    if k > 0 {
      assert parts'[..k] == parts[..k];
    }
  }

  /** Adding an empty part adds one separator. */
  lemma JoinAddEmpty(parts: seq<string>, sep: char)
    requires |parts| >= 1
    ensures Join(parts + [[]], sep) == Join(parts, sep) + [sep]
  {
    assert (parts + [[]])[..|parts|] == parts;
  }

  /** Splitting and joining back again gives the original string. */
  lemma {:induction false} JoinSplit(s: string, sep: char)
    ensures Join(Split(s, sep), sep) == s
    decreases |s|
  {
    if s != [] {
      var u := s[..|s| - 1];
      var c := s[|s| - 1];
      JoinSplit(u, sep);
      assert s == u + [c];
      if c == sep {
        JoinAddEmpty(Split(u, sep), sep);
      } else {
        JoinExtendLast(Split(u, sep), sep, c);
      }
    }
  }

  /** A separator followed by a separator-free tail adds exactly one part. */
  lemma {:induction false} SplitAfterSeparator(u: string, sep: char, d: string)
    requires sep !in d
    ensures Split(u + [sep] + d, sep) == Split(u, sep) + [d]
    decreases |d|
  {
    if d == [] {
      assert u + [sep] + d == u + [sep];
      assert (u + [sep])[..|u|] == u;
    } else {
      var d' := d[..|d| - 1];
      var c := d[|d| - 1];
      SplitAfterSeparator(u, sep, d');
      var s := u + [sep] + d;
      assert s[..|s| - 1] == u + [sep] + d';
      assert s[|s| - 1] == c;
      assert d' + [c] == d;
    }
  }

  /** Joining separator-free parts and splitting again gives back the parts. */
  lemma {:induction false} SplitJoin(parts: seq<string>, sep: char)
    requires |parts| >= 1
    requires forall i :: 0 <= i < |parts| ==> sep !in parts[i]
    ensures Split(Join(parts, sep), sep) == parts
    decreases |parts|
  {
    if |parts| == 1 {
      SplitAfterSeparatorFree(parts[0], sep);
    } else {
      var init := parts[..|parts| - 1];
      SplitJoin(init, sep);
      SplitAfterSeparator(Join(init, sep), sep, parts[|parts| - 1]);
      assert init + [parts[|parts| - 1]] == parts;
    }
  }

  /** A string without the separator splits into itself alone. */
  lemma {:induction false} SplitAfterSeparatorFree(d: string, sep: char)
    requires sep !in d
    ensures Split(d, sep) == [d]
    decreases |d|
  {
    if d != [] {
      var d' := d[..|d| - 1];
      SplitAfterSeparatorFree(d', sep);
      assert d' + [d[|d| - 1]] == d;
    }
  }

  /** Lower-cases ASCII capital letters and leaves every other character as it is. */
  function LowerChar(c: char): (r: char)
    ensures !('A' <= r <= 'Z')
    ensures !('A' <= c <= 'Z') ==> r == c
    ensures IsWhiteSpace(r) <==> IsWhiteSpace(c)
  {
    if 'A' <= c <= 'Z' then (c as int + 32) as char else c
  }

  /** Upper-cases ASCII small letters and leaves every other character as it is. */
  function UpperChar(c: char): (u: char)
    ensures !('a' <= u <= 'z')
    ensures !('a' <= c <= 'z') ==> u == c
  {
    if 'a' <= c <= 'z' then (c as int - 32) as char else c
  }

  /** `s.toLowerCase()`, on the ASCII letters. */
  function ToLower(s: string): (r: string)
    ensures |r| == |s|
    ensures forall i :: 0 <= i < |s| ==> r[i] == LowerChar(s[i])
    ensures forall i :: 0 <= i < |r| ==> !('A' <= r[i] <= 'Z')
  {
    seq(|s|, i requires 0 <= i < |s| => LowerChar(s[i]))
  }

  /**
   * The characters `String.prototype.trim` strips: ECMAScript's WhiteSpace
   * (tab, vertical tab, form feed, space, no-break space, byte order mark and
   * the Unicode space separators) and LineTerminator code points.
   */
  predicate IsWhiteSpace(c: char) {
    c == '\t' || c == '\U{000B}' || c == '\U{000C}' || c == ' ' || c == '\U{00A0}'
    || c == '\U{FEFF}' || c == '\U{1680}' || ('\U{2000}' <= c <= '\U{200A}')
    || c == '\U{202F}' || c == '\U{205F}' || c == '\U{3000}'
    || c == '\n' || c == '\r' || c == '\U{2028}' || c == '\U{2029}'
  }

  predicate AllWhiteSpace(s: string) {
    forall i :: 0 <= i < |s| ==> IsWhiteSpace(s[i])
  }

  function TrimStart(s: string): (r: string)
    ensures |r| <= |s| && r == s[|s| - |r|..]
    ensures AllWhiteSpace(s[..|s| - |r|])
    ensures r != [] ==> !IsWhiteSpace(r[0])
  {
    if s != [] && IsWhiteSpace(s[0]) then TrimStart(s[1..]) else s
  }

  function TrimEnd(s: string): (r: string)
    ensures |r| <= |s| && r == s[..|r|]
    ensures AllWhiteSpace(s[|r|..])
    ensures r != [] ==> !IsWhiteSpace(r[|r| - 1])
  {
    if s != [] && IsWhiteSpace(s[|s| - 1]) then TrimEnd(s[..|s| - 1]) else s
  }

  /**
   * `s.trim()`: the infix of `s` left after dropping its leading and trailing
   * white space; it neither starts nor ends with white space.
   */
  function Trim(s: string): (r: string)
    ensures exists i, j ::
              0 <= i <= j <= |s| && r == s[i..j] && AllWhiteSpace(s[..i]) && AllWhiteSpace(s[j..])
    ensures r != [] ==> !IsWhiteSpace(r[0]) && !IsWhiteSpace(r[|r| - 1])
  {
    var t := TrimStart(s);
    var r := TrimEnd(t);
    var i := |s| - |t|;
    var j := i + |r|;
    assert r == s[i..j];
    assert AllWhiteSpace(s[..i]);
    assert s[j..] == t[|r|..];
    assert AllWhiteSpace(s[j..]);
    assert 0 <= i <= j <= |s| && r == s[i..j] && AllWhiteSpace(s[..i]) && AllWhiteSpace(s[j..]);
    r
  }

  /** Lower-casing before or after dropping leading white space gives the same string. */
  lemma {:induction false} ToLowerTrimStart(s: string)
    ensures ToLower(TrimStart(s)) == TrimStart(ToLower(s))
    decreases |s|
  {
    if s != [] && IsWhiteSpace(s[0]) {
      ToLowerTrimStart(s[1..]);
      assert ToLower(s)[1..] == ToLower(s[1..]);
    }
  }

  /** Lower-casing before or after dropping trailing white space gives the same string. */
  lemma {:induction false} ToLowerTrimEnd(s: string)
    ensures ToLower(TrimEnd(s)) == TrimEnd(ToLower(s))
    decreases |s|
  {
    if s != [] && IsWhiteSpace(s[|s| - 1]) {
      ToLowerTrimEnd(s[..|s| - 1]);
      assert ToLower(s)[..|s| - 1] == ToLower(s[..|s| - 1]);
    }
  }

  /** `s.trim().toLowerCase()` is `s.toLowerCase().trim()`. */
  lemma ToLowerTrim(s: string)
    ensures ToLower(Trim(s)) == Trim(ToLower(s))
  {
    ToLowerTrimStart(s);
    ToLowerTrimEnd(TrimStart(s));
  }

  /** A string made only of white space trims to the empty string. */
  lemma {:induction false} TrimAllWhiteSpace(s: string)
    requires AllWhiteSpace(s)
    ensures Trim(s) == []
    decreases |s|
  {
    if s != [] {
      TrimAllWhiteSpace(s[1..]);
    }
  }

  /** `t` occurs in `s` starting at index `i`. */
  predicate OccursAt(s: string, t: string, i: int) {
    0 <= i && i + |t| <= |s| && s[i..i + |t|] == t
  }

  /** `s.includes(t)`: `t` occurs somewhere in `s` as a contiguous run. */
  function Includes(s: string, t: string): (b: bool)
    ensures b <==> exists i :: OccursAt(s, t, i)
    decreases |s|
  {
    if |t| > |s| then false
    else if s[..|t|] == t then
      assert OccursAt(s, t, 0);
      true
    else
      var b := Includes(s[1..], t);
      assert forall k :: OccursAt(s[1..], t, k) ==> OccursAt(s, t, k + 1) by {
        forall k | OccursAt(s[1..], t, k) ensures OccursAt(s, t, k + 1) {
          assert s[1..][k..k + |t|] == s[k + 1..k + 1 + |t|];
        }
      }
      assert forall i :: OccursAt(s, t, i) ==> OccursAt(s[1..], t, i - 1) by {
        forall i | OccursAt(s, t, i) ensures OccursAt(s[1..], t, i - 1) {
          assert i != 0;
          assert s[1..][i - 1..i - 1 + |t|] == s[i..i + |t|];
        }
      }
      b
  }
}

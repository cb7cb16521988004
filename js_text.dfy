/** The JavaScript string and array built-ins the batch renamer relies on:
    `toLowerCase`/`toUpperCase` (ASCII part), `includes`/`indexOf`, `replace`
    with a string pattern, `Array.prototype.map`/`filter`/`join`,
    `String.prototype.split` with a one-character separator, and the
    decimal rendering of a non-negative integer in a template literal. */
module JsText {
  import opened Wrappers

  predicate IsAsciiUpper(c: char) { 'A' <= c <= 'Z' }

  predicate IsAsciiLower(c: char) { 'a' <= c <= 'z' }

  predicate IsDigit(c: char) { '0' <= c <= '9' }

  /** The word characters of a JavaScript regular expression without the
      `u` flag (`\w`, and hence `\b`): `[A-Za-z0-9_]`. */
  predicate IsWordChar(c: char) {
    IsAsciiUpper(c) || IsAsciiLower(c) || IsDigit(c) || c == '_'
  }

  function LowerChar(c: char): char {
    if IsAsciiUpper(c) then (c as int + 32) as char else c
  }

  function UpperChar(c: char): char {
    if IsAsciiLower(c) then (c as int - 32) as char else c
  }

  /** `String.prototype.toLowerCase`, on the ASCII letters. */
  function ToLowerCase(s: string): (r: string)
    ensures |r| == |s|
  {
    seq(|s|, i requires 0 <= i < |s| => LowerChar(s[i]))
  }

  /** Lower-casing leaves no ASCII capital and changes only ASCII capitals,
      each into the letter whose upper case it is. */
  lemma LowerCaseSpec(s: string)
    ensures forall i :: 0 <= i < |s| ==> !IsAsciiUpper(ToLowerCase(s)[i])
    ensures forall i :: 0 <= i < |s| ==>
              ToLowerCase(s)[i] == s[i] || (IsAsciiUpper(s[i]) && UpperChar(ToLowerCase(s)[i]) == s[i])
  {
  }

  /** `String.prototype.toUpperCase`, on the ASCII letters. */
  function ToUpperCase(s: string): (r: string)
    ensures |r| == |s|
    ensures forall i :: 0 <= i < |s| ==> !IsAsciiLower(r[i])
    ensures forall i :: 0 <= i < |s| ==> r[i] == s[i] || (IsAsciiLower(s[i]) && LowerChar(r[i]) == s[i])
  {
    seq(|s|, i requires 0 <= i < |s| => UpperChar(s[i]))
  }

  /** Upper-casing leaves a string without ASCII lower-case letters as it is. */
  lemma UpperCaseOfUpper(s: string)
    requires forall i :: 0 <= i < |s| ==> !IsAsciiLower(s[i])
    ensures ToUpperCase(s) == s
  {
  }

  /** `pat` occurs in `s` starting at index `i`. */
  predicate OccursAt(s: string, pat: string, i: nat) {
    i + |pat| <= |s| && s[i..i + |pat|] == pat
  }

  /** `s.indexOf(pat, from)`, with `None` for JavaScript's `-1`. */
  function IndexOfFrom(s: string, pat: string, from: nat): (r: Option<nat>)
    ensures r.Some? ==>
              from <= r.value && OccursAt(s, pat, r.value) &&
              forall j :: from <= j < r.value ==> !OccursAt(s, pat, j)
    ensures r.None? ==> forall j :: from <= j ==> !OccursAt(s, pat, j)
    decreases |s| - from
  {
    if from + |pat| > |s| then None
    else if s[from..from + |pat|] == pat then Some(from)
    else IndexOfFrom(s, pat, from + 1)
  }

  /** `s.indexOf(pat)`: the first occurrence of `pat`. */
  function IndexOf(s: string, pat: string): Option<nat> {
    IndexOfFrom(s, pat, 0)
  }

  /** `s.includes(pat)`. */
  predicate Includes(s: string, pat: string): (b: bool)
    ensures b ==> exists i: nat :: OccursAt(s, pat, i)
    ensures !b ==> forall i: nat :: !OccursAt(s, pat, i)
  {
    IndexOf(s, pat).Some?
  }

  /** Any occurrence that has no earlier one is the one `indexOf` reports. */
  lemma IndexOfFirst(s: string, pat: string, i: nat)
    requires OccursAt(s, pat, i)
    requires forall j :: 0 <= j < i ==> !OccursAt(s, pat, j)
    ensures IndexOf(s, pat) == Some(i)
  {
  }

  /** A pattern whose first character appears at no position where the
      pattern could start does not occur. */
  lemma NotIncludes(s: string, pat: string)
    requires |pat| > 0
    requires forall i :: 0 <= i && i + |pat| <= |s| ==> s[i] != pat[0]
    ensures !Includes(s, pat)
  {
    forall i: nat ensures !OccursAt(s, pat, i) {
      if i + |pat| <= |s| {
        assert s[i..i + |pat|][0] == s[i];
      }
    }
  }

  /** `s.replace(pat, rep)` with a string pattern: only the first occurrence
      of `pat` is replaced; without one, `s` is returned unchanged. */
  function ReplaceFirst(s: string, pat: string, rep: string): (r: string)
    ensures !Includes(s, pat) ==> r == s
    ensures Includes(s, pat) ==> |r| == |s| - |pat| + |rep|
  {
    match IndexOf(s, pat)
    case None => s
    case Some(i) => s[..i] + rep + s[i + |pat|..]
  }

  /** With an occurrence, the text before the first one is kept, the
      occurrence becomes `rep`, and the text after it is kept. */
  lemma ReplaceFirstSpec(s: string, pat: string, rep: string)
    requires Includes(s, pat)
    ensures var i, r := IndexOf(s, pat).value, ReplaceFirst(s, pat, rep);
      && r[..i] == s[..i] && r[i..i + |rep|] == rep && r[i + |rep|..] == s[i + |pat|..]
      && forall j :: 0 <= j < i ==> !OccursAt(s, pat, j)
  {
    var i, r := IndexOf(s, pat).value, ReplaceFirst(s, pat, rep);
    assert r == s[..i] + rep + s[i + |pat|..];
  }

  /** `Array.prototype.map`. */
  function Map<A, B>(f: A -> B, s: seq<A>): (r: seq<B>)
    ensures |r| == |s|
    ensures forall i :: 0 <= i < |s| ==> r[i] == f(s[i])
  {
    seq(|s|, i requires 0 <= i < |s| => f(s[i]))
  }

  /** `Array.prototype.filter`: the elements that satisfy `p`, in order. */
  function Filter<T>(s: seq<T>, p: T -> bool): (r: seq<T>)
    ensures |r| <= |s|
    ensures |r| == |s| <==> forall i :: 0 <= i < |s| ==> p(s[i])
    ensures forall i :: 0 <= i < |r| ==> p(r[i])
    decreases |s|
  {
    if s == [] then []
    else (if p(s[0]) then [s[0]] else []) + Filter(s[1..], p)
  }

  /** The positions from `from` on whose elements satisfy `p`, in order. */
  function KeptIndices<T>(s: seq<T>, p: T -> bool, from: nat): seq<nat>
    requires from <= |s|
    decreases |s| - from
  {
    if from == |s| then []
    else (if p(s[from]) then [from] else []) + KeptIndices(s, p, from + 1)
  }

  /** Filtering a suffix peels off its first element. */
  lemma FilterStep<T>(s: seq<T>, p: T -> bool, from: nat)
    requires from < |s|
    ensures Filter(s[from..], p) == (if p(s[from]) then [s[from]] else []) + Filter(s[from + 1..], p)
  {
    assert s[from..][1..] == s[from + 1..];
  }

  /** Filtering keeps exactly the elements satisfying `p`, in input order:
      the `k`-th kept element sits at the `k`-th of the increasing positions
      `KeptIndices`, and a position is among them exactly when its element
      satisfies `p`. */
  lemma {:induction false} FilterKeepsOrder<T>(s: seq<T>, p: T -> bool, from: nat)
    requires from <= |s|
    ensures var idx := KeptIndices(s, p, from);
      && |idx| == |Filter(s[from..], p)|
      && (forall k :: 0 <= k < |idx| ==>
            from <= idx[k] < |s| && Filter(s[from..], p)[k] == s[idx[k]])
      && (forall k, l :: 0 <= k < l < |idx| ==> idx[k] < idx[l])
    decreases |s| - from
  {
    if from < |s| {
      FilterKeepsOrder(s, p, from + 1);
      FilterStep(s, p, from);
      var rest := KeptIndices(s, p, from + 1);
      var kept := Filter(s[from..], p);
      var f := Filter(s[from + 1..], p);
      var idx := KeptIndices(s, p, from);
      if p(s[from]) {
        assert idx == [from] + rest && kept == [s[from]] + f;
        forall k | 0 <= k < |idx| ensures from <= idx[k] < |s| && kept[k] == s[idx[k]] {
          if k > 0 {
            assert idx[k] == rest[k - 1] && kept[k] == f[k - 1];
          }
        }
        forall k, l | 0 <= k < l < |idx| ensures idx[k] < idx[l] {
          assert idx[l] == rest[l - 1];
          if k > 0 {
            assert idx[k] == rest[k - 1];
          }
        }
      } else {
        assert idx == rest && kept == f;
      }
    }
  }

  /** A position from `from` on is kept exactly when its element satisfies
      `p`. */
  lemma {:induction false} KeptIndicesMembers<T>(s: seq<T>, p: T -> bool, from: nat)
    requires from <= |s|
    ensures forall j :: from <= j < |s| ==> (p(s[j]) <==> j in KeptIndices(s, p, from))
    decreases |s| - from
  {
    if from < |s| {
      KeptIndicesMembers(s, p, from + 1);
      KeptIndicesFrom(s, p, from + 1);
    }
  }

  /** Every kept position is at or after `from`. */
  lemma {:induction false} KeptIndicesFrom<T>(s: seq<T>, p: T -> bool, from: nat)
    requires from <= |s|
    ensures forall k :: 0 <= k < |KeptIndices(s, p, from)| ==> from <= KeptIndices(s, p, from)[k]
    decreases |s| - from
  {
    if from < |s| {
      KeptIndicesFrom(s, p, from + 1);
    }
  }

  /** `parts.join(sep)`. */
  function Join(sep: string, parts: seq<string>): (r: string)
    ensures parts == [] ==> r == ""
    ensures parts != [] ==> |parts[0]| <= |r|
    decreases |parts|
  {
    if |parts| == 0 then ""
    else if |parts| == 1 then parts[0]
    else parts[0] + sep + Join(sep, parts[1..])
  }

  /** The first part begins the joined string and the last part ends it. */
  lemma {:induction false} JoinEnds(sep: string, parts: seq<string>)
    requires parts != []
    ensures var r, last := Join(sep, parts), parts[|parts| - 1];
      parts[0] <= r && |last| <= |r| && r[|r| - |last|..] == last
    decreases |parts|
  {
    if |parts| >= 2 {
      JoinEnds(sep, parts[1..]);
    }
  }

  /** `s.split(c)` for a one-character separator; `"".split(c)` is `[""]`. */
  function Split(s: string, c: char): (r: seq<string>)
    ensures |r| >= 1
    decreases |s|
  {
    if s == [] then [""]
    else
      var rest := Split(s[1..], c);
      if s[0] == c then [""] + rest else [[s[0]] + rest[0]] + rest[1..]
  }

  /** A string without the separator splits into itself. */
  lemma {:induction false} SplitWithoutSeparator(a: string, c: char)
    requires c !in a
    ensures Split(a, c) == [a]
    decreases |a|
  {
    if a != [] {
      SplitWithoutSeparator(a[1..], c);
      assert [a[0]] + a[1..] == a;
    }
  }

  /** Splitting at the first separator peels off the text before it. */
  lemma {:induction false} SplitAtFirst(a: string, b: string, c: char)
    requires c !in a
    ensures Split(a + [c] + b, c) == [a] + Split(b, c)
    decreases |a|
  {
    var s := a + [c] + b;
    if a == [] {
      assert s[1..] == b;
    } else {
      assert s[1..] == a[1..] + [c] + b;
      SplitAtFirst(a[1..], b, c);
      assert [a[0]] + a[1..] == a;
    }
  }

  /** Joining on a one-character separator that no part contains and
      splitting on it again gives the parts back. */
  lemma {:induction false} SplitJoin(parts: seq<string>, c: char)
    requires |parts| >= 1
    requires forall i :: 0 <= i < |parts| ==> c !in parts[i]
    ensures Split(Join([c], parts), c) == parts
    decreases |parts|
  {
    if |parts| == 1 {
      SplitWithoutSeparator(parts[0], c);
    } else {
      SplitJoin(parts[1..], c);
      SplitAtFirst(parts[0], Join([c], parts[1..]), c);
      assert [parts[0]] + parts[1..] == parts;
    }
  }

  function DigitChar(d: nat): (c: char)
    requires d < 10
  {
    ('0' as int + d) as char
  }

  /** The decimal rendering of a non-negative integer in a template literal:
      at least one digit, no leading zero. */
  function NatToString(n: nat): (s: string)
    ensures |s| >= 1
    ensures forall i :: 0 <= i < |s| ==> IsDigit(s[i])
    ensures |s| > 1 ==> s[0] != '0'
    decreases n
  {
    if n < 10 then [DigitChar(n)] else NatToString(n / 10) + [DigitChar(n % 10)]
  }

  /** The value a string of decimal digits denotes. */
  function DigitsValue(s: string): nat
    requires forall i :: 0 <= i < |s| ==> IsDigit(s[i])
    decreases |s|
  {
    if s == [] then 0
    else
      assert IsDigit(s[|s| - 1]);
      DigitsValue(s[..|s| - 1]) * 10 + (s[|s| - 1] as int - '0' as int)
  }

  /** Reading the rendered digits back gives the number. */
  lemma {:induction false} NatToStringRoundTrip(n: nat)
    ensures DigitsValue(NatToString(n)) == n
    decreases n
  {
    if n >= 10 {
      NatToStringRoundTrip(n / 10);
      var s := NatToString(n);
      assert s[..|s| - 1] == NatToString(n / 10);
    }
  }
}

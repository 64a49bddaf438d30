/**
 * The few ECMAScript string built-ins the room-code normaliser relies on,
 * stated after ECMA-262 (2024 edition): StringIndexOf (section 6.1.4.1),
 * String.prototype.includes (section 22.1.3.8), String.prototype.split with a
 * string separator and no limit (section 22.1.3.23), and
 * String.prototype.replace (section 22.1.3.19) with the flag-less pattern
 * /\/$/ and an empty replacement. A `char` stands for one UTF-16 code unit.
 */
module JsString {

  datatype Option<T> = None | Some(value: T)

  /** `sep` occurs in `s` starting at index `k`. */
  predicate OccursAt(s: string, sep: string, k: int)
  {
    0 <= k && k + |sep| <= |s| && s[k..k + |sep|] == sep
  }

  /** `sep` occurs somewhere in `s`. */
  ghost predicate Contains(s: string, sep: string)
  {
    exists k :: OccursAt(s, sep, k)
  }

  /**
   * StringIndexOf(s, sep, from): the least index at or after `from` where
   * `sep` occurs, or None where ECMAScript answers -1.
   */
  function IndexOf(s: string, sep: string, from: nat): (r: Option<nat>)
    ensures r.Some? ==> from <= r.value && OccursAt(s, sep, r.value)
    ensures r.Some? ==> forall k :: from <= k < r.value ==> !OccursAt(s, sep, k)
    ensures r.None? ==> forall k :: from <= k ==> !OccursAt(s, sep, k)
    decreases |s| + 1 - from
  {
    if from + |sep| > |s| then None
    else if s[from..from + |sep|] == sep then Some(from)
    else IndexOf(s, sep, from + 1)
  }

  /** `s.includes(sep)`: StringIndexOf from position 0 is not -1. */
  function Includes(s: string, sep: string): (r: bool)
    ensures r <==> Contains(s, sep)
  {
    IndexOf(s, sep, 0).Some?
  }

  /** An occurrence inside the slice `s[i..j]` is an occurrence in `s` that ends by `j`. */
  lemma SliceOccurrence(s: string, sep: string, i: int, j: int)
    requires 0 <= i <= j <= |s|
    ensures forall k :: OccursAt(s[i..j], sep, k) ==> OccursAt(s, sep, i + k) && i + k + |sep| <= j
  {
    forall k | OccursAt(s[i..j], sep, k)
      ensures OccursAt(s, sep, i + k) && i + k + |sep| <= j
    {
      forall t | 0 <= t < |sep| ensures sep[t] == s[i + k + t] {
        assert sep[t] == s[i..j][k..k + |sep|][t];
      }
    }
  }

  /**
   * The substrings of `s` from index `i` on, cut at each occurrence of `sep`
   * (the "Repeat, while j is not -1" loop of String.prototype.split).
   */
  function SplitFrom(s: string, sep: string, i: nat): (parts: seq<string>)
    requires sep != [] && i <= |s|
    ensures |parts| >= 1
    decreases |s| - i
  {
    match IndexOf(s, sep, i)
    case None => [s[i..]]
    case Some(j) => [s[i..j]] + SplitFrom(s, sep, j + |sep|)
  }

  /** No part that SplitFrom yields contains the separator. */
  lemma {:induction false} SplitFromPartsLackSeparator(s: string, sep: string, i: nat)
    requires sep != [] && i <= |s|
    ensures forall n :: 0 <= n < |SplitFrom(s, sep, i)| ==> !Contains(SplitFrom(s, sep, i)[n], sep)
    decreases |s| - i
  {
    var parts := SplitFrom(s, sep, i);
    match IndexOf(s, sep, i)
    case None =>
      assert parts == [s[i..]] && s[i..] == s[i..|s|];
      SliceOccurrence(s, sep, i, |s|);
    case Some(j) =>
      var rest := SplitFrom(s, sep, j + |sep|);
      assert parts == [s[i..j]] + rest;
      SliceOccurrence(s, sep, i, j);
      SplitFromPartsLackSeparator(s, sep, j + |sep|);
      forall n | 0 < n < |parts| ensures parts[n] == rest[n - 1] {}
  }

  /** `s.split(sep)` for a non-empty string separator; no part contains `sep`. */
  function Split(s: string, sep: string): (parts: seq<string>)
    requires sep != []
    ensures |parts| >= 1
    ensures forall n :: 0 <= n < |parts| ==> !Contains(parts[n], sep)
  {
    if s == [] then
      assert forall k :: !OccursAt(s, sep, k);
      [s]
    else
      SplitFromPartsLackSeparator(s, sep, 0);
      SplitFrom(s, sep, 0)
  }

  /** `parts.join(sep)`: the inverse of Split. */
  function Join(parts: seq<string>, sep: string): (s: string)
  {
    if |parts| == 0 then []
    else if |parts| == 1 then parts[0]
    else parts[0] + sep + Join(parts[1..], sep)
  }

  lemma {:induction false} SplitFromJoin(s: string, sep: string, i: nat)
    requires sep != [] && i <= |s|
    ensures Join(SplitFrom(s, sep, i), sep) == s[i..]
    decreases |s| - i
  {
    match IndexOf(s, sep, i)
    case None =>
    case Some(j) =>
      var rest := SplitFrom(s, sep, j + |sep|);
      SplitFromJoin(s, sep, j + |sep|);
      var parts := [s[i..j]] + rest;
      assert SplitFrom(s, sep, i) == parts;
      assert parts[1..] == rest;
      assert Join(parts, sep) == s[i..j] + sep + s[j + |sep|..];
      assert s[i..] == s[i..j] + s[j..j + |sep|] + s[j + |sep|..];
  }

  /** Joining the parts of a split with the same separator gives back the string. */
  lemma {:induction false} SplitJoinRoundTrip(s: string, sep: string)
    requires sep != []
    ensures Join(Split(s, sep), sep) == s
  {
    if s != [] {
      SplitFromJoin(s, sep, 0);
    }
  }

  /** Split yields more than one part exactly when the separator occurs. */
  lemma SplitHasSeveralPartsIffContains(s: string, sep: string)
    requires sep != []
    ensures |Split(s, sep)| > 1 <==> Contains(s, sep)
  {
  }

  /** Where a part of `s` that starts at `from` ends: at the next occurrence of `sep`, or at the end. */
  function SegmentEnd(s: string, sep: string, from: nat): (e: nat)
    requires sep != [] && from <= |s|
    ensures from <= e <= |s|
    ensures forall k :: from <= k && k + |sep| <= e ==> !OccursAt(s, sep, k)
  {
    match IndexOf(s, sep, from)
    case None => |s|
    case Some(j) => j
  }

  /**
   * When the first occurrence of `sep` is at `i`, the first part is what
   * precedes it and the second part runs from just after it to the next
   * occurrence or the end.
   */
  lemma {:induction false} SplitFirstTwoParts(s: string, sep: string, i: nat)
    requires sep != [] && IndexOf(s, sep, 0) == Some(i)
    ensures |Split(s, sep)| >= 2
    ensures Split(s, sep)[0] == s[..i]
    ensures Split(s, sep)[1] == s[i + |sep|..SegmentEnd(s, sep, i + |sep|)]
  {
    var from := i + |sep|;
    var rest := SplitFrom(s, sep, from);
    assert Split(s, sep) == [s[0..i]] + rest;
    match IndexOf(s, sep, from)
    case None =>
      assert rest == [s[from..]] && s[from..] == s[from..|s|];
    case Some(j) =>
      assert rest == [s[from..j]] + SplitFrom(s, sep, j + |sep|);
  }

  /** The flag-less pattern /\/$/ matches at `k`: a '/' that is the last code unit. */
  predicate TrailingSlashAt(s: string, k: int)
  {
    0 <= k < |s| && s[k] == '/' && k + 1 == |s|
  }

  predicate EndsWithSlash(s: string)
  {
    |s| > 0 && s[|s| - 1] == '/'
  }

  /**
   * The leftmost index at or after `from` where /\/$/ matches, trying each
   * start position in turn as a non-global, non-sticky RegExp execution does.
   */
  function FirstTrailingSlash(s: string, from: nat): (r: Option<nat>)
    ensures r.Some? ==> from <= r.value && TrailingSlashAt(s, r.value)
    ensures r.Some? ==> forall k :: from <= k < r.value ==> !TrailingSlashAt(s, k)
    ensures r.None? ==> forall k :: from <= k ==> !TrailingSlashAt(s, k)
    decreases |s| - from
  {
    if from >= |s| then None
    else if s[from] == '/' && from + 1 == |s| then Some(from)
    else FirstTrailingSlash(s, from + 1)
  }

  /**
   * `s.replace(/\/$/, '')`: the first match of the pattern is replaced by
   * the empty string. It removes one final '/' and nothing else.
   */
  function ReplaceTrailingSlash(s: string): (r: string)
    ensures EndsWithSlash(s) ==> r + "/" == s
    ensures !EndsWithSlash(s) ==> r == s
  {
    match FirstTrailingSlash(s, 0)
    case None =>
      assert !TrailingSlashAt(s, |s| - 1);
      s
    case Some(k) =>
      assert s == s[..k] + "/";
      s[..k] + "" + s[k + 1..]
  }

  /** Removing the final '/' cannot create an occurrence of the separator. */
  lemma ReplaceTrailingSlashKeepsAbsence(s: string, sep: string)
    requires !Contains(s, sep)
    ensures !Contains(ReplaceTrailingSlash(s), sep)
  {
    var r := ReplaceTrailingSlash(s);
    assert r == s[0..|r|];
    SliceOccurrence(s, sep, 0, |r|);
  }
}

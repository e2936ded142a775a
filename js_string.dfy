/**
  The two JavaScript string operations the negotiation relies on: `String.prototype.split`
  with a non-empty string separator, and its inverse `Array.prototype.join`.

  `split` scans left to right and cuts at every non-overlapping occurrence of the
  separator, the leftmost first; the empty string splits into one empty part.
*/
module JsString {

  /** The separator both header parsers of lib/delta.js split on. */
  const ListSeparator: string := ", "

  /** `sep` occurs in `s` starting at index `j`. */
  predicate OccursAt(s: string, sep: string, j: int) {
    0 <= j && j + |sep| <= |s| && s[j..j + |sep|] == sep
  }

  predicate Contains(s: string, sep: string) {
    exists j :: 0 <= j <= |s| && OccursAt(s, sep, j)
  }

  /** `String.prototype.indexOf(sep, from)`: the first occurrence at or after `from`, or -1. */
  function IndexOfFrom(s: string, sep: string, from: nat): (k: int)
    requires |sep| > 0
    ensures k == -1 || (from <= k && OccursAt(s, sep, k))
    ensures forall j :: from <= j && (k == -1 || j < k) ==> !OccursAt(s, sep, j)
    decreases |s| - from
  {
    if from + |sep| > |s| then -1
    else if s[from..from + |sep|] == sep then from
    else IndexOfFrom(s, sep, from + 1)
  }

  /** `String.prototype.indexOf(sep)`. */
  function IndexOf(s: string, sep: string): (k: int)
    requires |sep| > 0
    ensures k == -1 <==> !Contains(s, sep)
    ensures k != -1 ==> OccursAt(s, sep, k) && forall j :: 0 <= j < k ==> !OccursAt(s, sep, j)
  {
    IndexOfFrom(s, sep, 0)
  }

  /** `Array.prototype.indexOf(x)` on an array of strings: the first position of `x`, or -1. */
  function ArrayIndexOf(xs: seq<string>, x: string): (k: int)
    ensures -1 <= k < |xs|
    ensures k == -1 <==> forall j :: 0 <= j < |xs| ==> xs[j] != x
    ensures k != -1 ==> xs[k] == x && forall j :: 0 <= j < k ==> xs[j] != x
    decreases |xs|
  {
    if |xs| == 0 then -1
    else if xs[0] == x then 0
    else
      var k := ArrayIndexOf(xs[1..], x);
      assert forall j :: 1 <= j < |xs| ==> xs[j] == xs[1..][j - 1];
      if k == -1 then -1 else k + 1
  }

  /** `Array.prototype.join(sep)` on an array of strings. */
  function Join(parts: seq<string>, sep: string): string
    decreases |parts|
  {
    if |parts| == 0 then ""
    else if |parts| == 1 then parts[0]
    else parts[0] + sep + Join(parts[1..], sep)
  }

  /**
    `s.split(sep)`: never empty, joining the parts back with `sep` gives `s`, and no part
    contains the separator.
  */
  function Split(s: string, sep: string): (parts: seq<string>)
    requires |sep| > 0
    ensures |parts| > 0
    ensures Join(parts, sep) == s
    ensures forall i :: 0 <= i < |parts| ==> !Contains(parts[i], sep)
    decreases |s|
  {
    var k := IndexOf(s, sep);
    if k == -1 then [s]
    else
      var head, rest := s[..k], Split(s[k + |sep|..], sep);
      assert !Contains(head, sep) by {
        forall j | 0 <= j <= |head| ensures !OccursAt(head, sep, j) {
          OccursInPrefix(s, k, sep, j);
        }
      }
      assert ([head] + rest)[1..] == rest;
      [head] + rest
  }

  /** Occurrences inside a prefix of `s` are exactly the occurrences in `s` that end by `n`. */
  lemma OccursInPrefix(s: string, n: nat, sep: string, j: int)
    requires n <= |s|
    ensures OccursAt(s[..n], sep, j) ==> OccursAt(s, sep, j)
    ensures j + |sep| <= n && OccursAt(s, sep, j) ==> OccursAt(s[..n], sep, j)
  {
    if 0 <= j && j + |sep| <= n {
      assert s[..n][j..j + |sep|] == s[j..j + |sep|];
    }
  }

  /** A text without a comma, such as a hexadecimal digest, holds no ", ". */
  lemma NoCommaNoSeparator(s: string)
    requires forall i :: 0 <= i < |s| ==> s[i] != ','
    ensures !Contains(s, ListSeparator)
  {
    forall j | 0 <= j <= |s| ensures !OccursAt(s, ListSeparator, j) {
      if j + 2 <= |s| {
        assert s[j..j + 2][0] == s[j];
      }
    }
  }

  /** A slice of a text free of `sep` is free of it too. */
  lemma NoSeparatorInSlice(s: string, sep: string, i: int, j: int)
    requires 0 <= i <= j <= |s|
    requires !Contains(s, sep)
    ensures !Contains(s[i..j], sep)
  {
    var t := s[i..j];
    forall k | 0 <= k <= |t| ensures !OccursAt(t, sep, k) {
      if OccursAt(t, sep, k) {
        forall m | 0 <= m < |sep| ensures s[i + k + m] == sep[m] {
          assert t[k..k + |sep|][m] == sep[m];
        }
        assert s[i + k..i + k + |sep|] == sep;
        assert OccursAt(s, sep, i + k);
      }
    }
  }

  /** `s.split(', ')`, the form both header parsers use. */
  function SplitList(s: string): seq<string> {
    Split(s, ListSeparator)
  }

  /** Joining with ", " and splitting on ", " again gives back parts that held no ", ". */
  lemma {:induction false} SplitJoin(parts: seq<string>)
    requires |parts| > 0
    requires forall i :: 0 <= i < |parts| ==> !Contains(parts[i], ListSeparator)
    ensures Split(Join(parts, ListSeparator), ListSeparator) == parts
    decreases |parts|
  {
    var sep := ListSeparator;
    if |parts| == 1 {
      assert Join(parts, sep) == parts[0];
    } else {
      var head, tail := parts[0], Join(parts[1..], sep);
      var s := head + sep + tail;
      assert Join(parts, sep) == s;
      assert OccursAt(s, sep, |head|) by {
        assert s[|head|..|head| + |sep|] == sep;
      }
      forall j | 0 <= j < |head| ensures !OccursAt(s, sep, j) {
        if j + |sep| <= |head| {
          assert s[..|head|] == head;
          OccursInPrefix(s, |head|, sep, j);
        } else {
          assert s[j + 1] == ',';
        }
      }
      var k := IndexOf(s, sep);
      assert k == |head|;
      assert s[..k] == head;
      assert s[k + |sep|..] == tail;
      SplitJoin(parts[1..]);
      assert [head] + parts[1..] == parts;
    }
  }

}

/**
 Text helpers used by the command line front end: Python's `str.startswith`
 and `str.join`, and a single-character `str.split` that serves as the
 inverse of `join`.
 */
module Strings {

  /** `s.startswith(prefix)`: `s` is `prefix` followed by something, that
      is, it agrees with `prefix` character by character. */
  predicate StartsWith(s: string, prefix: string)
    ensures StartsWith(s, prefix)
        <==> |prefix| <= |s| && forall i :: 0 <= i < |prefix| ==> s[i] == prefix[i]
    ensures StartsWith(s, prefix) ==> s == prefix + s[|prefix|..]
  {
    assert |prefix| <= |s| ==> s == s[..|prefix|] + s[|prefix|..];
    |prefix| <= |s| && s[..|prefix|] == prefix
  }

  /** `sep.join(parts)`: the parts with one copy of `sep` between neighbours;
      empty for no parts, and otherwise beginning with the first part. */
  function Join(parts: seq<string>, sep: string): (r: string)
    ensures |parts| == 0 ==> r == ""
    ensures |parts| > 0 ==> StartsWith(r, parts[0])
    decreases |parts|
  {
    if |parts| == 0 then ""
    else if |parts| == 1 then parts[0]
    else parts[0] + sep + Join(parts[1..], sep)
  }

  /** `s.split(c)` for a one-character separator: never empty, with an empty
      field for every leading, trailing or doubled separator. */
  function SplitOn(s: string, c: char): (r: seq<string>)
    ensures |r| >= 1
    decreases |s|
  {
    if |s| == 0 then [""]
    else if s[0] == c then [""] + SplitOn(s[1..], c)
    else
      var rest := SplitOn(s[1..], c);
      [[s[0]] + rest[0]] + rest[1..]
  }

  /** A string without the separator is a single field. */
  lemma {:induction false} SplitOnNoSeparator(s: string, c: char)
    requires c !in s
    ensures SplitOn(s, c) == [s]
    decreases |s|
  {
    if |s| > 0 {
      assert s[0] != c;
      assert c !in s[1..];
      SplitOnNoSeparator(s[1..], c);
      assert [s[0]] + s[1..] == s;
    }
  }

  /** Splitting `x + c + y`, where `x` has no separator, yields `x` and then
      the fields of `y`. */
  lemma {:induction false} SplitOnFirstSeparator(x: string, c: char, y: string)
    requires c !in x
    ensures SplitOn(x + [c] + y, c) == [x] + SplitOn(y, c)
    decreases |x|
  {
    var s := x + [c] + y;
    if |x| == 0 {
      assert s[0] == c && s[1..] == y;
    } else {
      assert s[0] == x[0] && x[0] != c;
      assert s[1..] == x[1..] + [c] + y;
      assert c !in x[1..];
      SplitOnFirstSeparator(x[1..], c, y);
      assert [x[0]] + x[1..] == x;
    }
  }

  /** `join` followed by `split` on the same one-character separator gives the
      parts back, provided there is at least one part and no part contains the
      separator. */
  lemma {:induction false} SplitJoinRoundTrip(parts: seq<string>, c: char)
    requires |parts| >= 1
    requires forall i :: 0 <= i < |parts| ==> c !in parts[i]
    ensures SplitOn(Join(parts, [c]), c) == parts
    decreases |parts|
  {
    if |parts| == 1 {
      SplitOnNoSeparator(parts[0], c);
    } else {
      var tail := parts[1..];
      assert forall i :: 0 <= i < |tail| ==> c !in tail[i] by {
        forall i | 0 <= i < |tail| ensures c !in tail[i] {
          assert tail[i] == parts[i + 1];
        }
      }
      SplitJoinRoundTrip(tail, c);
      SplitOnFirstSeparator(parts[0], c, Join(tail, [c]));
      assert [parts[0]] + tail == parts;
    }
  }

  /** The length of a join: every part plus one separator per gap. */
  lemma {:induction false} JoinLength(parts: seq<string>, sep: string)
    requires |parts| >= 1
    ensures |Join(parts, sep)| == TotalLength(parts) + (|parts| - 1) * |sep|
    decreases |parts|
  {
    if |parts| > 1 {
      JoinLength(parts[1..], sep);
    }
  }

  /** Sum of the lengths of the parts. */
  function TotalLength(parts: seq<string>): (n: nat)
    decreases |parts|
  {
    if |parts| == 0 then 0 else |parts[0]| + TotalLength(parts[1..])
  }
}

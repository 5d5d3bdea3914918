/** The two ECMAScript string operations the report code relies on:
    `String.prototype.split` with a non-empty string separator and
    `Array.prototype.join`. Cookie serialisation splits on ";" and joins with
    "; "; component paths are split on ":". */
module Strings {

  /** `s.split(sep)`: cut `s` at every leftmost, non-overlapping occurrence
      of `sep`. Like the ECMAScript operation it always yields at least one
      part, and the empty string yields `[""]`. */
  function Split(s: string, sep: string): (parts: seq<string>)
    requires |sep| > 0
    ensures |parts| >= 1
    decreases |s|
  {
    if |s| < |sep| then [s]
    else if s[..|sep|] == sep then [""] + Split(s[|sep|..], sep)
    else
      var rest := Split(s[1..], sep);
      [[s[0]] + rest[0]] + rest[1..]
  }

  /** `parts.join(sep)`; the empty list joins to "". */
  function Join(parts: seq<string>, sep: string): string
    decreases |parts|
  {
    if |parts| == 0 then ""
    else if |parts| == 1 then parts[0]
    else parts[0] + sep + Join(parts[1..], sep)
  }

  /** `parts.pop()` on the non-empty result of a split. */
  function Last(parts: seq<string>): string
    requires |parts| > 0
  {
    parts[|parts| - 1]
  }

  /** `c` does not occur in `s`. */
  predicate Free(s: string, c: char) {
    forall i :: 0 <= i < |s| ==> s[i] != c
  }

  /** `p` is a prefix of `s` and `q` a suffix, written out by position. */
  predicate IsPrefix(p: string, s: string) {
    |p| <= |s| && s[..|p|] == p
  }

  predicate IsSuffix(q: string, s: string) {
    |q| <= |s| && s[|s| - |q|..] == q
  }

  /** Joining the parts of a split gives back the original string. */
  lemma {:induction false} JoinSplit(s: string, sep: string)
    requires |sep| > 0
    ensures Join(Split(s, sep), sep) == s
    decreases |s|
  {
    if |s| < |sep| {
    } else if s[..|sep|] == sep {
      var rest := s[|sep|..];
      JoinSplit(rest, sep);
      var r := Split(rest, sep);
      assert Split(s, sep) == [""] + r;
      JoinCons("", r, sep);
      assert s == sep + rest;
    } else {
      var rest := Split(s[1..], sep);
      JoinSplit(s[1..], sep);
      assert Split(s, sep) == [[s[0]] + rest[0]] + rest[1..];
      JoinPrepend(s[0], rest, sep);
      assert [s[0]] + s[1..] == s;
    }
  }

  /** Joining a list with one more part in front. */
  lemma JoinCons(x: string, r: seq<string>, sep: string)
    requires |r| >= 1
    ensures Join([x] + r, sep) == x + sep + Join(r, sep)
  {
    assert ([x] + r)[1..] == r;
  }

  /** Prefixing the first part with a character prefixes the joined string. */
  lemma JoinPrepend(c: char, r: seq<string>, sep: string)
    requires |r| >= 1
    ensures Join([[c] + r[0]] + r[1..], sep) == [c] + Join(r, sep)
  {
    if |r| > 1 {
      var tail := Join(r[1..], sep);
      JoinCons([c] + r[0], r[1..], sep);
      assert r == [r[0]] + r[1..];
      JoinCons(r[0], r[1..], sep);
      assert ([c] + r[0]) + sep + tail == [c] + (r[0] + sep + tail);
    }
  }

  /** A split on a one-character separator leaves that character in no part. */
  lemma {:induction false} SplitPartsFree(s: string, c: char)
    ensures forall k :: 0 <= k < |Split(s, [c])| ==> Free(Split(s, [c])[k], c)
    decreases |s|
  {
    var sep := [c];
    if |s| < 1 {
    } else if s[..1] == sep {
      SplitPartsFree(s[1..], c);
      var r := Split(s[1..], sep);
      assert Split(s, sep) == [""] + r;
      forall k | 0 <= k < |Split(s, sep)|
        ensures Free(Split(s, sep)[k], c)
      {
        if k > 0 {
          assert Split(s, sep)[k] == r[k - 1];
        }
      }
    } else {
      SplitPartsFree(s[1..], c);
      var rest := Split(s[1..], sep);
      assert s[0] != c by { assert s[..1] == [s[0]]; }
      assert Free(rest[0], c);
      var parts := [[s[0]] + rest[0]] + rest[1..];
      assert Split(s, sep) == parts;
      forall k | 0 <= k < |parts|
        ensures Free(parts[k], c)
      {
        if k > 0 {
          assert parts[k] == rest[k];
        }
      }
    }
  }

  /** A string whose characters avoid the separator's first character is
      not cut at all. */
  lemma {:induction false} SplitWithoutSeparator(p: string, sep: string)
    requires |sep| > 0
    requires Free(p, sep[0])
    ensures Split(p, sep) == [p]
    decreases |p|
  {
    if |p| < |sep| {
    } else {
      assert p[..|sep|] != sep by { assert p[0] != sep[0]; }
      SplitWithoutSeparator(p[1..], sep);
      assert [p[0]] + p[1..] == p;
    }
  }

  /** The first separator after a separator-free prefix is a cut point. */
  lemma {:induction false} SplitAfterFreePrefix(p: string, sep: string, t: string)
    requires |sep| > 0
    requires Free(p, sep[0])
    ensures Split(p + sep + t, sep) == [p] + Split(t, sep)
    decreases |p|
  {
    var s := p + sep + t;
    if |p| == 0 {
      assert s == sep + t;
      assert s[..|sep|] == sep;
      assert s[|sep|..] == t;
    } else {
      assert s[..|sep|] != sep by { assert s[0] == p[0] != sep[0]; }
      assert s[1..] == p[1..] + sep + t;
      SplitAfterFreePrefix(p[1..], sep, t);
      var rest := Split(s[1..], sep);
      assert rest[0] == p[1..];
      assert rest[1..] == Split(t, sep);
      assert [p[0]] + p[1..] == p;
    }
  }

  /** Splitting a join recovers the parts, provided the list is non-empty and
      no part contains the separator's first character. */
  lemma {:induction false} SplitJoin(parts: seq<string>, sep: string)
    requires |sep| > 0
    requires |parts| > 0
    requires forall k :: 0 <= k < |parts| ==> Free(parts[k], sep[0])
    ensures Split(Join(parts, sep), sep) == parts
    decreases |parts|
  {
    if |parts| == 1 {
      SplitWithoutSeparator(parts[0], sep);
    } else {
      SplitJoin(parts[1..], sep);
      SplitAfterFreePrefix(parts[0], sep, Join(parts[1..], sep));
      assert [parts[0]] + parts[1..] == parts;
    }
  }

  /** The first part of a split is a prefix of the input, and it is the
      whole input unless a separator follows it directly. */
  lemma FirstPartIsPrefix(s: string, sep: string)
    requires |sep| > 0
    ensures IsPrefix(Split(s, sep)[0], s)
    ensures |Split(s, sep)| == 1 ==> Split(s, sep)[0] == s
    ensures |Split(s, sep)| > 1 ==>
              |Split(s, sep)[0]| + |sep| <= |s|
              && s[|Split(s, sep)[0]|..|Split(s, sep)[0]| + |sep|] == sep
  {
    var parts := Split(s, sep);
    JoinSplit(s, sep);
    if |parts| > 1 {
      assert s == parts[0] + sep + Join(parts[1..], sep);
      assert s[..|parts[0]|] == parts[0];
      assert s[|parts[0]|..|parts[0]| + |sep|] == sep;
    }
  }

  /** A join of two or more parts ends with the separator and the last part. */
  lemma {:induction false} JoinLast(parts: seq<string>, sep: string)
    requires |parts| > 1
    ensures Join(parts, sep) == Join(parts[..|parts| - 1], sep) + sep + Last(parts)
    decreases |parts|
  {
    if |parts| == 2 {
    } else {
      JoinLast(parts[1..], sep);
      assert parts[1..][..|parts| - 2] == parts[..|parts| - 1][1..];
    }
  }

  /** The last part of a split is a suffix of the input, and it is the whole
      input unless a separator precedes it directly. */
  lemma LastPartIsSuffix(s: string, sep: string)
    requires |sep| > 0
    ensures IsSuffix(Last(Split(s, sep)), s)
    ensures |Split(s, sep)| == 1 ==> Last(Split(s, sep)) == s
    ensures |Split(s, sep)| > 1 ==>
              |Last(Split(s, sep))| + |sep| <= |s|
              && s[|s| - |Last(Split(s, sep))| - |sep|..|s| - |Last(Split(s, sep))|] == sep
  {
    var parts := Split(s, sep);
    JoinSplit(s, sep);
    if |parts| > 1 {
      JoinLast(parts, sep);
      var front := Join(parts[..|parts| - 1], sep);
      var l := Last(parts);
      assert s == front + sep + l;
      assert s[|s| - |l|..] == l;
      assert s[|s| - |l| - |sep|..|s| - |l|] == sep;
    }
  }

  /** A one-character split has more than one part exactly when the
      character occurs. */
  lemma SplitCutsIffPresent(s: string, c: char)
    ensures |Split(s, [c])| > 1 <==> !Free(s, c)
  {
    if Free(s, c) {
      SplitWithoutSeparator(s, [c]);
    } else {
      SplitPartsFree(s, c);
      if |Split(s, [c])| == 1 {
        FirstPartIsPrefix(s, [c]);
      }
    }
  }
}

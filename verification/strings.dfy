/** The two Python string primitives the request handler relies on:
    `str.find` (first occurrence of a substring, or -1) and `str.split`
    with an explicit one-character separator. */
module Strings {

  /** `pat` occurs in `s` starting at index `i`. */
  predicate OccursAt(s: string, pat: string, i: int)
  {
    0 <= i && i + |pat| <= |s| && s[i..i + |pat|] == pat
  }

  /** Shifting an occurrence by one when the first character is dropped. */
  lemma OccursAtTail(s: string, pat: string)
    requires |s| >= 1
    ensures forall j {:trigger OccursAt(s, pat, j)} :: 1 <= j ==>
      (OccursAt(s, pat, j) <==> OccursAt(s[1..], pat, j - 1))
  {
    forall j | 1 <= j
      ensures OccursAt(s, pat, j) <==> OccursAt(s[1..], pat, j - 1)
    {
      if j + |pat| <= |s| {
        assert s[1..][j - 1..j - 1 + |pat|] == s[j..j + |pat|];
      }
    }
  }

  /** Python's `s.find(pat)`. FindSpec states what it returns. */
  function Find(s: string, pat: string): int
    decreases |s|
  {
    if |s| < |pat| then -1
    else if s[..|pat|] == pat then 0
    else
      var k := Find(s[1..], pat);
      if k == -1 then -1 else k + 1
  }

  /** `find` returns the index of the first occurrence of `pat` in `s`, or
      -1 when there is none. */
  lemma {:induction false} FindSpec(s: string, pat: string)
    ensures var r := Find(s, pat);
      -1 <= r &&
      (r >= 0 ==> OccursAt(s, pat, r)) &&
      (forall j :: 0 <= j && (r == -1 || j < r) ==> !OccursAt(s, pat, j))
    decreases |s|
  {
    if |s| >= |pat| && s[..|pat|] != pat {
      OccursAtTail(s, pat);
      FindSpec(s[1..], pat);
    }
  }

  /** `find` with a one-character pattern: -1 exactly when the character is
      absent, otherwise the position of its first occurrence. */
  lemma FindChar(s: string, c: char)
    ensures var r := Find(s, [c]);
      -1 <= r < |s| && (r == -1 <==> c !in s) &&
      (r >= 0 ==> s[r] == c && c !in s[..r])
  {
    FindSpec(s, [c]);
    var r := Find(s, [c]);
    forall j | 0 <= j < |s|
      ensures OccursAt(s, [c], j) <==> s[j] == c
    {
      assert s[j..j + 1] == [s[j]];
    }
    if r >= 0 {
      assert c !in s[..r] by {
        forall j | 0 <= j < r ensures s[..r][j] != c {
          assert !OccursAt(s, [c], j);
        }
      }
    } else {
      forall j | 0 <= j < |s| ensures s[j] != c {
        assert !OccursAt(s, [c], j);
      }
    }
  }

  /** The first occurrence of `c` is at `i` when `s[i] == c` and no earlier
      character is `c`. */
  lemma FindCharAt(s: string, c: char, i: int)
    requires 0 <= i < |s| && s[i] == c && c !in s[..i]
    ensures Find(s, [c]) == i
  {
    FindChar(s, c);
    assert s[..i + 1][i] == c;
  }

  /** Python's `sep.join(parts)` for a one-character separator. */
  function Join(parts: seq<string>, sep: char): string
    decreases |parts|
  {
    if |parts| == 0 then []
    else if |parts| == 1 then parts[0]
    else parts[0] + [sep] + Join(parts[1..], sep)
  }

  /** Python's `s.split(sep)`: the pieces between consecutive occurrences of
      `sep`. SplitSpec states how they make up `s`. */
  function Split(s: string, sep: char): (parts: seq<string>)
    ensures |parts| >= 1
    decreases |s|
  {
    FindChar(s, sep);
    var i := Find(s, [sep]);
    if i == -1 then [s] else [s[..i]] + Split(s[i + 1..], sep)
  }

  /** No piece contains the separator, and joining the pieces with it gives
      `s` back. */
  lemma {:induction false} SplitSpec(s: string, sep: char)
    ensures var parts := Split(s, sep);
      (forall i :: 0 <= i < |parts| ==> sep !in parts[i]) && Join(parts, sep) == s
    decreases |s|
  {
    FindChar(s, sep);
    var i := Find(s, [sep]);
    if i != -1 {
      var rest := Split(s[i + 1..], sep);
      SplitSpec(s[i + 1..], sep);
      assert s == s[..i] + [sep] + s[i + 1..];
      assert ([s[..i]] + rest)[1..] == rest;
      JoinHead([s[..i]] + rest, sep);
    }
  }

  /** The head of a join: the first piece, followed by the separator when
      there are further pieces. */
  lemma JoinHead(parts: seq<string>, sep: char)
    requires |parts| >= 1
    ensures |parts| == 1 ==> Join(parts, sep) == parts[0]
    ensures |parts| > 1 ==> Join(parts, sep) == parts[0] + [sep] + Join(parts[1..], sep)
  {
  }

  /** Splitting at the first separator: the first piece is everything before it. */
  lemma SplitAt(s: string, sep: char, i: int)
    requires 0 <= i < |s| && s[i] == sep && sep !in s[..i]
    ensures Split(s, sep) == [s[..i]] + Split(s[i + 1..], sep)
  {
    FindCharAt(s, sep, i);
  }

  /** A piece without the separator, then the separator: that piece comes
      first and the rest splits on its own. */
  lemma SplitPrefix(head: string, sep: char, rest: string)
    requires sep !in head
    ensures Split(head + [sep] + rest, sep) == [head] + Split(rest, sep)
  {
    var s := head + [sep] + rest;
    assert s[..|head|] == head;
    assert s[|head| + 1..] == rest;
    SplitAt(s, sep, |head|);
  }

  /** A string without the separator splits into itself alone. */
  lemma SplitNone(s: string, sep: char)
    requires sep !in s
    ensures Split(s, sep) == [s]
  {
    FindChar(s, sep);
  }

  /** The first piece runs up to the first separator or the end; the other
      pieces are the split of what follows that separator. */
  lemma SplitHead(s: string, sep: char)
    ensures var p := Split(s, sep); var n := |p[0]|;
      p[0] <= s && sep !in p[0] && (n == |s| || s[n] == sep) &&
      (|p| >= 2 <==> n < |s|) &&
      (|p| >= 2 ==> n == Find(s, [sep]) && p[1..] == Split(s[n + 1..], sep))
  {
    FindChar(s, sep);
  }

  /** When a string splits into two or more pieces, the second piece is the
      text after the first separator, up to the next separator or the end. */
  lemma SplitSecond(s: string, sep: char)
    requires |Split(s, sep)| >= 2
    ensures var p, i := Split(s, sep), Find(s, [sep]);
      i == |p[0]| && i + 1 + |p[1]| <= |s| && s[i + 1..i + 1 + |p[1]|] == p[1] &&
      sep !in p[1] && (i + 1 + |p[1]| == |s| || s[i + 1 + |p[1]|] == sep)
  {
    var p := Split(s, sep);
    SplitHead(s, sep);
    var n := |p[0]|;
    var t := s[n + 1..];
    SplitHead(t, sep);
    assert p[1] == Split(t, sep)[0];
    assert t[..|p[1]|] == p[1];
  }

  /** A character absent from a string is absent from each of its slices. */
  lemma NotInSlice(s: string, c: char, i: int, j: int)
    requires 0 <= i <= j <= |s| && c !in s
    ensures c !in s[i..j]
  {
    forall k | 0 <= k < j - i ensures s[i..j][k] != c {
      assert s[i..j][k] == s[i + k];
    }
  }

  /** Split inverts Join on at least one piece when no piece contains the
      separator. */
  lemma {:induction false} SplitJoin(parts: seq<string>, sep: char)
    requires |parts| >= 1
    requires forall i :: 0 <= i < |parts| ==> sep !in parts[i]
    ensures Split(Join(parts, sep), sep) == parts
    decreases |parts|
  {
    if |parts| == 1 {
      SplitNone(parts[0], sep);
    } else {
      SplitPrefix(parts[0], sep, Join(parts[1..], sep));
      SplitJoin(parts[1..], sep);
      assert parts == [parts[0]] + parts[1..];
    }
  }
}

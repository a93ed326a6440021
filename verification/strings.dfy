/** The few JavaScript string primitives the dependency-id code relies on:
    `startsWith`, `replaceAll` with a non-empty literal pattern, and `split`
    on a one-character separator. */
module Strings {

  predicate StartsWith(s: string, prefix: string) {
    |prefix| <= |s| && s[..|prefix|] == prefix
  }

  /** `s.replaceAll(pat, rep)`: occurrences are found left to right and do
      not overlap; replaced text is never searched again. */
  function ReplaceAll(s: string, pat: string, rep: string): string
    requires |pat| > 0
    decreases |s|
  {
    if |s| < |pat| then s
    else if s[..|pat|] == pat then rep + ReplaceAll(s[|pat|..], pat, rep)
    else [s[0]] + ReplaceAll(s[1..], pat, rep)
  }

  /** A one-character pattern is replaced character by character, so the
      replacement distributes over concatenation. */
  lemma {:induction false} ReplaceCharConcat(a: string, b: string, p: char, rep: string)
    ensures ReplaceAll(a + b, [p], rep) == ReplaceAll(a, [p], rep) + ReplaceAll(b, [p], rep)
    decreases |a|
  {
    if a == [] {
      assert a + b == b;
    } else {
      assert (a + b)[1..] == a[1..] + b;
      assert (a + b)[..1] == a[..1];
      ReplaceCharConcat(a[1..], b, p, rep);
    }
  }

  /** Replacing a character that does not occur changes nothing. */
  lemma {:induction false} ReplaceCharAbsent(s: string, p: char, rep: string)
    requires p !in s
    ensures ReplaceAll(s, [p], rep) == s
    decreases |s|
  {
    if s != [] {
      assert s[..1] == [s[0]];
      ReplaceCharAbsent(s[1..], p, rep);
    }
  }

  /** A three-character pattern cannot start at a character that differs
      from its first one. */
  lemma ReplaceSkip(c: char, t: string, pat: string, rep: string)
    requires |pat| == 3 && c != pat[0]
    ensures ReplaceAll([c] + t, pat, rep) == [c] + ReplaceAll(t, pat, rep)
  {
    var s := [c] + t;
    assert s[1..] == t;
    if |s| >= |pat| {
      assert s[..|pat|][0] == c;
    }
  }

  /** All the segments of `s` around the separator `d`, as
      `s.split(d)` returns them (never empty: `"".split(d)` is `[""]`). */
  function Split(s: string, d: char): (segs: seq<string>)
    ensures |segs| > 0
    decreases |s|
  {
    if s == [] then [[]]
    else if s[0] == d then [[]] + Split(s[1..], d)
    else
      var rest := Split(s[1..], d);
      [[s[0]] + rest[0]] + rest[1..]
  }

  /** `s.split(d, limit)`: the first `limit` segments. */
  function SplitLimit(s: string, d: char, limit: nat): (segs: seq<string>)
    ensures |segs| == if |Split(s, d)| < limit then |Split(s, d)| else limit
  {
    var all := Split(s, d);
    if |all| <= limit then all else all[..limit]
  }

  /** A string without the separator is a single segment. */
  lemma {:induction false} SplitNoSeparator(s: string, d: char)
    requires d !in s
    ensures Split(s, d) == [s]
    decreases |s|
  {
    if s != [] {
      SplitNoSeparator(s[1..], d);
      assert [s[0]] + s[1..] == s;
    }
  }

  /** Splitting `a·b`, where `a` holds no separator, yields `a` followed by
      the segments of `b`. */
  lemma {:induction false} SplitJoin(a: string, b: string, d: char)
    requires d !in a
    ensures Split(a + [d] + b, d) == [a] + Split(b, d)
    decreases |a|
  {
    var s := a + [d] + b;
    if a == [] {
      assert s == [d] + b;
      assert s[1..] == b;
    } else {
      assert s[1..] == a[1..] + [d] + b;
      SplitJoin(a[1..], b, d);
      assert [a[0]] + a[1..] == a;
    }
  }
}

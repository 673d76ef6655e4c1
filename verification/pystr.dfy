/** The handful of Python `str` operations the scripts rely on, with
    CPython's semantics: `split` and `replace` scan left to right and take
    non-overlapping occurrences, `join` puts the separator between parts. */
module PyStr {

  /** `sub` occurs in `s` starting at index `i`. */
  predicate OccursAt(s: string, sub: string, i: int)
  {
    0 <= i && i + |sub| <= |s| && s[i..i + |sub|] == sub
  }

  /** Python's `sub in s`. */
  predicate Contains(s: string, sub: string)
  {
    exists i | 0 <= i <= |s| :: OccursAt(s, sub, i)
  }

  /** Python's `s.startswith(prefix)`. */
  predicate StartsWith(s: string, prefix: string)
  {
    |prefix| <= |s| && s[..|prefix|] == prefix
  }

  /** Python's `s.endswith(suffix)`. */
  predicate EndsWith(s: string, suffix: string)
  {
    |suffix| <= |s| && s[|s| - |suffix|..] == suffix
  }

  /** Python's `s.split(sep)` for a non-empty separator: the pieces between
      the non-overlapping occurrences of `sep`, found left to right. */
  function Split(s: string, sep: string): (parts: seq<string>)
    requires sep != []
    ensures |parts| >= 1
    decreases |s|
  {
    if |s| < |sep| then [s]
    else if s[..|sep|] == sep then [[]] + Split(s[|sep|..], sep)
    else
      var rest := Split(s[1..], sep);
      [[s[0]] + rest[0]] + rest[1..]
  }

  /** Python's `sep.join(parts)`. */
  function Join(sep: string, parts: seq<string>): string
  {
    if |parts| == 0 then []
    else if |parts| == 1 then parts[0]
    else parts[0] + sep + Join(sep, parts[1..])
  }

  /** `"".join(parts)`, or the text a loop builds with `+=` from `parts`. */
  function Concat(parts: seq<string>): string
  {
    if parts == [] then [] else Concat(parts[..|parts| - 1]) + parts[|parts| - 1]
  }

  /** Python's `s.replace(target, replacement)` for a non-empty target:
      every non-overlapping occurrence, found left to right, is replaced. */
  function ReplaceAll(s: string, target: string, replacement: string): string
    requires target != []
    decreases |s|
  {
    if |s| < |target| then s
    else if s[..|target|] == target then replacement + ReplaceAll(s[|target|..], target, replacement)
    else [s[0]] + ReplaceAll(s[1..], target, replacement)
  }

  lemma EndsWithConcat(prefix: string, suffix: string)
    ensures EndsWith(prefix + suffix, suffix)
  {
    assert (prefix + suffix)[|prefix|..] == suffix;
  }

  /** Dropping the first character shifts every occurrence one place left. */
  lemma OccursAfterFirst(s: string, sub: string, i: int)
    requires s != []
    ensures OccursAt(s[1..], sub, i) <==> i >= 0 && OccursAt(s, sub, i + 1)
  {
    if 0 <= i && i + 1 + |sub| <= |s| {
      assert s[1..][i..i + |sub|] == s[i + 1..i + 1 + |sub|];
    }
  }

  /** `p` is the text of `s` up to the first occurrence of `sep`, or all of
      `s` when `sep` does not occur. */
  predicate IsFirstPiece(s: string, sep: string, p: string)
  {
    && StartsWith(s, p)
    && (forall i :: 0 <= i < |p| ==> !OccursAt(s, sep, i))
    && (p == s || OccursAt(s, sep, |p|))
  }

  /** Extending a first piece of `s[1..]` by `s[0]`, when no occurrence
      starts at 0, gives the first piece of `s`. */
  lemma FirstPieceStep(s: string, sep: string, p: string)
    requires s != [] && !OccursAt(s, sep, 0)
    requires IsFirstPiece(s[1..], sep, p)
    ensures IsFirstPiece(s, sep, [s[0]] + p)
  {
    var q := [s[0]] + p;
    assert s[..|q|] == q by {
      assert s[1..][..|p|] == p;
    }
    forall i | 1 <= i < |q|
      ensures !OccursAt(s, sep, i)
    {
      OccursAfterFirst(s, sep, i - 1);
    }
    OccursAfterFirst(s, sep, |p|);
    assert p == s[1..] ==> q == s;
  }

  /** The first piece of a split is the text up to the first occurrence of
      the separator, or all of `s` when the separator does not occur. */
  lemma {:induction false} SplitFirstPiece(s: string, sep: string)
    requires sep != []
    ensures IsFirstPiece(s, sep, Split(s, sep)[0])
    decreases |s|
  {
    if |s| < |sep| {
    } else if s[..|sep|] == sep {
    } else {
      SplitFirstPiece(s[1..], sep);
      var p := Split(s[1..], sep)[0];
      assert Split(s, sep)[0] == [s[0]] + p;
      FirstPieceStep(s, sep, p);
    }
  }

  /** For a one-character separator the first piece holds no separator and
      is either all of `s` or followed by the separator. */
  lemma SplitFirstPieceChar(s: string, c: char)
    ensures c !in Split(s, [c])[0]
    ensures Split(s, [c])[0] == s || StartsWith(s, Split(s, [c])[0] + [c])
  {
    SplitFirstPiece(s, [c]);
    var p := Split(s, [c])[0];
    forall k | 0 <= k < |p|
      ensures p[k] != c
    {
      assert !OccursAt(s, [c], k);
      assert s[k..k + 1] == [s[k]];
    }
    if p != s {
      assert s[..|p| + 1] == p + [c];
    }
  }

  /** An empty first piece contributes only the separator. */
  lemma JoinEmptyFirst(sep: string, rest: seq<string>)
    requires rest != []
    ensures Join(sep, [[]] + rest) == sep + Join(sep, rest)
  {
    var parts := [[]] + rest;
    assert parts[0] == [] && parts[1..] == rest;
  }

  /** Growing the first piece by a character grows the join by it. */
  lemma JoinExtendFirst(sep: string, c: char, rest: seq<string>)
    requires rest != []
    ensures Join(sep, [[c] + rest[0]] + rest[1..]) == [c] + Join(sep, rest)
  {
    var parts := [[c] + rest[0]] + rest[1..];
    assert parts[0] == [c] + rest[0] && parts[1..] == rest[1..];
    if |rest| > 1 {
      var tail := Join(sep, rest[1..]);
      assert ([c] + rest[0]) + sep + tail == [c] + (rest[0] + sep + tail);
    }
  }

  /** `replace` agrees with `join` of `split`. */
  lemma {:induction false} ReplaceIsJoinOfSplit(s: string, target: string, replacement: string)
    requires target != []
    ensures ReplaceAll(s, target, replacement) == Join(replacement, Split(s, target))
    decreases |s|
  {
    if |s| < |target| {
    } else if s[..|target|] == target {
      ReplaceIsJoinOfSplit(s[|target|..], target, replacement);
      JoinEmptyFirst(replacement, Split(s[|target|..], target));
    } else {
      ReplaceIsJoinOfSplit(s[1..], target, replacement);
      JoinExtendFirst(replacement, s[0], Split(s[1..], target));
    }
  }

  /** A text in which the target does not occur is returned unchanged. */
  lemma {:induction false} ReplaceAbsent(s: string, target: string, replacement: string)
    requires target != []
    requires !Contains(s, target)
    ensures ReplaceAll(s, target, replacement) == s
    decreases |s|
  {
    if |s| >= |target| {
      assert !OccursAt(s, target, 0);
      forall i | OccursAt(s[1..], target, i)
        ensures OccursAt(s, target, i + 1)
      {
        assert s[1..][i..i + |target|] == s[i + 1..i + 1 + |target|];
      }
      ReplaceAbsent(s[1..], target, replacement);
      assert s == [s[0]] + s[1..];
    }
  }

  /** Replacing a single character acts on each part of a concatenation
      separately (no occurrence can straddle the seam). */
  lemma {:induction false} ReplaceCharConcat(a: string, b: string, c: char, replacement: string)
    ensures ReplaceAll(a + b, [c], replacement)
         == ReplaceAll(a, [c], replacement) + ReplaceAll(b, [c], replacement)
    decreases |a|
  {
    if a != [] {
      ReplaceCharConcat(a[1..], b, c, replacement);
      assert (a + b)[1..] == a[1..] + b;
      assert (a + b)[..1] == a[..1];
    } else {
      assert a + b == b;
    }
  }

  /** Concatenating two lists of parts concatenates their texts. */
  lemma {:induction false} ConcatAppend(a: seq<string>, b: seq<string>)
    ensures Concat(a + b) == Concat(a) + Concat(b)
    decreases |b|
  {
    if b == [] {
      assert a + b == a;
    } else {
      var n := |b| - 1;
      assert (a + b)[..|a| + n] == a + b[..n];
      ConcatAppend(a, b[..n]);
    }
  }

  /** The same text is obtained by adding parts at the front. */
  lemma ConcatCons(x: string, parts: seq<string>)
    ensures Concat([x] + parts) == x + Concat(parts)
  {
    ConcatAppend([x], parts);
    assert Concat([x]) == Concat([]) + x;
  }

  /** Text before the first occurrence of the target is copied unchanged. */
  lemma {:induction false} ReplaceAfterClean(p: string, s: string, target: string, replacement: string)
    requires target != []
    requires forall i :: 0 <= i < |p| ==> !OccursAt(p + s, target, i)
    ensures ReplaceAll(p + s, target, replacement) == p + ReplaceAll(s, target, replacement)
    decreases |p|
  {
    if p != [] {
      var x := p + s;
      assert x[1..] == p[1..] + s;
      forall i | 0 <= i < |p| - 1
        ensures !OccursAt(p[1..] + s, target, i)
      {
        OccursAfterFirst(x, target, i);
      }
      ReplaceAfterClean(p[1..], s, target, replacement);
      assert !OccursAt(x, target, 0);
      if |x| >= |target| {
        assert x[..|target|] != target by { assert x[..|target|] == x[0..|target|]; }
        assert ReplaceAll(x, target, replacement) == [x[0]] + ReplaceAll(x[1..], target, replacement);
      } else {
        assert ReplaceAll(s, target, replacement) == s;
      }
      assert p == [p[0]] + p[1..];
    } else {
      assert p + s == s;
    }
  }

  /** An occurrence at the very start is replaced first. */
  lemma ReplaceLeading(target: string, rest: string, replacement: string)
    requires target != []
    ensures ReplaceAll(target + rest, target, replacement) == replacement + ReplaceAll(rest, target, replacement)
  {
    var x := target + rest;
    assert x[..|target|] == target && x[|target|..] == rest;
  }

  /** A non-empty join ends with its last part. */
  lemma {:induction false} JoinEndsWithLast(sep: string, parts: seq<string>)
    requires parts != []
    ensures EndsWith(Join(sep, parts), parts[|parts| - 1])
    decreases |parts|
  {
    if |parts| == 1 {
      EndsWithConcat([], parts[0]);
      assert [] + parts[0] == parts[0];
    } else {
      JoinEndsWithLast(sep, parts[1..]);
      var rest := Join(sep, parts[1..]);
      var last := parts[|parts| - 1];
      var j := Join(sep, parts);
      assert j == parts[0] + sep + rest;
      assert j[|j| - |last|..] == rest[|rest| - |last|..];
    }
  }

  /** A suffix of a suffix is a suffix. */
  lemma EndsWithTrans(s: string, t: string, u: string)
    requires EndsWith(s, t) && EndsWith(t, u)
    ensures EndsWith(s, u)
  {
    assert s[|s| - |u|..] == s[|s| - |t|..][|t| - |u|..];
  }
}

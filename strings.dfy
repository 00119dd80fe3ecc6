/** The string built-ins the source relies on: `split`, `join`, `includes` and
    `replace` with a global literal pattern. */
module Strings {
  import opened Ascii

  predicate StartsWith(s: AString, prefix: AString)
  {
    |prefix| <= |s| && s[..|prefix|] == prefix
  }

  /** `s.includes(sub)`; every string includes the empty string. */
  predicate Contains(s: AString, sub: AString)
    decreases |s|
  {
    StartsWith(s, sub) || (s != [] && Contains(s[1..], sub))
  }

  /** `parts.join(sep)`. */
  function Join(parts: seq<AString>, sep: AString): AString
    decreases |parts|
  {
    if |parts| == 0 then []
    else if |parts| == 1 then parts[0]
    else parts[0] + sep + Join(parts[1..], sep)
  }

  /** `s.split(c)` for a one-character separator: the pieces between the
      occurrences of `c`, at least one. Joining them back gives `s`. */
  function Split(s: AString, c: AChar): (parts: seq<AString>)
    ensures |parts| >= 1
    ensures Join(parts, [c]) == s
    ensures forall i | 0 <= i < |parts| :: c !in parts[i]
    decreases |s|
  {
    if s == [] then [[]]
    else
      var rest := Split(s[1..], c);
      if s[0] == c then [[]] + rest
      else [[s[0]] + rest[0]] + rest[1..]
  }

  /** The text before the first `c` and the text after it; the second part is
      empty when `c` does not occur. */
  function CutAt(s: AString, c: AChar): (r: (AString, AString))
    ensures c !in r.0
    ensures c in s ==> s == r.0 + [c] + r.1
    ensures c !in s ==> r == (s, [])
    decreases |s|
  {
    if s == [] then ([], [])
    else if s[0] == c then ([], s[1..])
    else
      var rest := CutAt(s[1..], c);
      assert s == [s[0]] + s[1..];
      ([s[0]] + rest.0, rest.1)
  }

  /** `s.replace(new RegExp(pat, "g"), rep)` for a pattern without
      metacharacters: leftmost, non-overlapping occurrences are replaced. */
  function ReplaceAll(s: AString, pat: AString, rep: AString): AString
    requires pat != []
    decreases |s|
  {
    if s == [] then []
    else if StartsWith(s, pat) then rep + ReplaceAll(s[|pat|..], pat, rep)
    else [s[0]] + ReplaceAll(s[1..], pat, rep)
  }

  // ---------------------------------------------------------------------------
  // Lemmas

  /** Concatenation is associative. */
  lemma AppendAssociative(x: AString, y: AString, z: AString)
    ensures (x + y) + z == x + (y + z)
  {
  }

  /** A character in neither the parts nor the separator is not in their join. */
  lemma {:induction false} JoinAvoids(parts: seq<AString>, sep: AString, c: AChar)
    requires c !in sep
    requires forall i | 0 <= i < |parts| :: c !in parts[i]
    ensures c !in Join(parts, sep)
    decreases |parts|
  {
    if |parts| > 1 {
      JoinAvoids(parts[1..], sep, c);
    }
  }

  /** A string that has no `c` is its own only piece. */
  lemma {:induction false} SplitNoSeparator(s: AString, c: AChar)
    requires c !in s
    ensures Split(s, c) == [s]
    decreases |s|
  {
    if s != [] {
      SplitNoSeparator(s[1..], c);
      assert [s[0]] + s[1..] == s;
    }
  }

  /** Splitting text that starts with a `c`-free block `a` followed by `c`. */
  lemma {:induction false} SplitAfterBlock(a: AString, c: AChar, b: AString)
    requires c !in a
    ensures Split(a + [c] + b, c) == [a] + Split(b, c)
    decreases |a|
  {
    if a == [] {
      assert a + [c] + b == [c] + b;
      assert ([c] + b)[1..] == b;
    } else {
      assert (a + [c] + b)[1..] == a[1..] + [c] + b;
      SplitAfterBlock(a[1..], c, b);
      assert [a[0]] + a[1..] == a;
    }
  }

  /** `split` undoes `join` when no part holds the separator. */
  lemma {:induction false} SplitJoin(parts: seq<AString>, c: AChar)
    requires |parts| >= 1
    requires forall i | 0 <= i < |parts| :: c !in parts[i]
    ensures Split(Join(parts, [c]), c) == parts
    decreases |parts|
  {
    if |parts| == 1 {
      SplitNoSeparator(parts[0], c);
    } else {
      SplitJoin(parts[1..], c);
      SplitAfterBlock(parts[0], c, Join(parts[1..], [c]));
      assert [parts[0]] + parts[1..] == parts;
    }
  }

  /** The first piece of a split is the text before the first separator. */
  lemma SplitFirstPiece(a: AString, c: AChar, b: AString)
    requires c !in a
    ensures Split(a + [c] + b, c)[0] == a
  {
    SplitAfterBlock(a, c, b);
  }

  /** The first piece is a prefix of `s`, followed by a separator unless it is all
      of `s`. */
  lemma SplitFirstPieceIsPrefix(s: AString, c: AChar)
    ensures var p := Split(s, c)[0]; |p| <= |s| && s[..|p|] == p && (|p| < |s| ==> s[|p|] == c)
  {
    var parts := Split(s, c);
    if |parts| > 1 {
      assert parts[0] + [c] + Join(parts[1..], [c]) == s;
    }
  }

  /** Cutting text that starts with a `c`-free block `a` followed by `c`. */
  lemma {:induction false} CutAtBlock(a: AString, c: AChar, b: AString)
    requires c !in a
    ensures CutAt(a + [c] + b, c) == (a, b)
    decreases |a|
  {
    if a == [] {
      assert a + [c] + b == [c] + b;
      assert ([c] + b)[1..] == b;
    } else {
      assert (a + [c] + b)[1..] == a[1..] + [c] + b;
      CutAtBlock(a[1..], c, b);
      assert [a[0]] + a[1..] == a;
    }
  }

  /** A replacement never looks inside a block that lacks the pattern's first
      character. */
  lemma {:induction false} ReplaceAllSkip(a: AString, rest: AString, pat: AString, rep: AString)
    requires pat != [] && pat[0] !in a
    ensures ReplaceAll(a + rest, pat, rep) == a + ReplaceAll(rest, pat, rep)
    decreases |a|
  {
    if a != [] {
      var s := a + rest;
      assert s[0] == a[0];
      assert !StartsWith(s, pat);
      assert s[1..] == a[1..] + rest;
      ReplaceAllSkip(a[1..], rest, pat, rep);
      assert [a[0]] + a[1..] == a;
    } else {
      assert a + rest == rest;
    }
  }

  /** An occurrence of the pattern at the front is replaced. */
  lemma ReplaceAllHit(rest: AString, pat: AString, rep: AString)
    requires pat != []
    ensures ReplaceAll(pat + rest, pat, rep) == rep + ReplaceAll(rest, pat, rep)
  {
    var s := pat + rest;
    assert s[..|pat|] == pat;
    assert s[|pat|..] == rest;
  }

  /** A string without the pattern's first character is left as it is. */
  lemma ReplaceAllNothing(s: AString, pat: AString, rep: AString)
    requires pat != [] && pat[0] !in s
    ensures ReplaceAll(s, pat, rep) == s
  {
    ReplaceAllSkip(s, [], pat, rep);
    assert s + [] == s;
  }

  /** `s.includes(c)` for a one-character string is membership of `c`. */
  lemma {:induction false} ContainsChar(s: AString, c: AChar)
    ensures Contains(s, [c]) <==> c in s
    decreases |s|
  {
    if s != [] {
      ContainsChar(s[1..], c);
      assert StartsWith(s, [c]) <==> s[0] == c;
      assert c in s <==> s[0] == c || c in s[1..] by {
        assert s == [s[0]] + s[1..];
      }
    }
  }
}

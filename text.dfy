/**
 * The string primitives that the chat component relies on: JavaScript's
 * `String.prototype.trim`, `startsWith`, substring search and
 * `split("\n")`, stated over `string`, a sequence of characters.
 */
module Text {
  import opened Wrappers

  /**
   * ECMAScript's WhiteSpace and LineTerminator code points, the set that
   * `trim` removes: TAB, VT, FF, SP, NBSP, ZWNBSP, the other Zs
   * separators, LF, CR, LINE SEPARATOR and PARAGRAPH SEPARATOR.
   */
  predicate IsWhitespace(c: char)
  {
    c in {'\t', '\U{000B}', '\U{000C}', ' ', '\U{00A0}', '\U{FEFF}',
          '\U{1680}', '\U{2000}', '\U{2001}', '\U{2002}', '\U{2003}',
          '\U{2004}', '\U{2005}', '\U{2006}', '\U{2007}', '\U{2008}',
          '\U{2009}', '\U{200A}', '\U{202F}', '\U{205F}', '\U{3000}',
          '\n', '\r', '\U{2028}', '\U{2029}'}
  }

  /** Every character of `s` is whitespace (so `s.trim() === ""`). */
  predicate AllWhitespace(s: string)
  {
    forall i :: 0 <= i < |s| ==> IsWhitespace(s[i])
  }

  /** Where the run of whitespace that starts at `i` ends: `trimStart` cuts there when `i` is 0. */
  function SkipLeading(s: string, i: nat): (j: nat)
    requires i <= |s|
    ensures i <= j <= |s|
    ensures forall k :: i <= k < j ==> IsWhitespace(s[k])
    ensures j < |s| ==> !IsWhitespace(s[j])
    decreases |s| - i
  {
    if i < |s| && IsWhitespace(s[i]) then SkipLeading(s, i + 1) else i
  }

  /** Where the run of whitespace that ends at `j` starts, not before `lo`: `trimEnd` cuts there. */
  function SkipTrailing(s: string, lo: nat, j: nat): (e: nat)
    requires lo <= j <= |s|
    ensures lo <= e <= j
    ensures forall k :: e <= k < j ==> IsWhitespace(s[k])
    ensures lo < e ==> !IsWhitespace(s[e - 1])
    decreases j
  {
    if lo < j && IsWhitespace(s[j - 1]) then SkipTrailing(s, lo, j - 1) else j
  }

  /** `r` sits at offset `i` of `s` with nothing but whitespace on either side. */
  predicate Framed(s: string, r: string, i: nat)
  {
    && i + |r| <= |s| && r == s[i..i + |r|]
    && (forall k :: 0 <= k < i ==> IsWhitespace(s[k]))
    && (forall k :: i + |r| <= k < |s| ==> IsWhitespace(s[k]))
  }

  /** `s.trim()`: what is left between the leading and the trailing whitespace (see `TrimFrames`). */
  function Trim(s: string): (r: string)
    ensures r != [] ==> !IsWhitespace(r[0]) && !IsWhitespace(r[|r| - 1])
  {
    var a := SkipLeading(s, 0);
    s[a..SkipTrailing(s, a, |s|)]
  }

  /** `s` is whitespace, then its trimmed text, then whitespace; and only whitespace trims to nothing. */
  lemma TrimFrames(s: string)
    ensures exists i :: Framed(s, Trim(s), i)
    ensures Trim(s) == [] <==> AllWhitespace(s)
  {
    var a := SkipLeading(s, 0);
    var e := SkipTrailing(s, a, |s|);
    assert Framed(s, Trim(s), a);
  }

  /** A text that neither starts nor ends with whitespace trims to itself. */
  lemma TrimUntouched(s: string)
    requires s != [] ==> !IsWhitespace(s[0]) && !IsWhitespace(s[|s| - 1])
    ensures Trim(s) == s
  {
    assert s[0..|s|] == s;
  }

  /** Cutting the rest of a string at four ordered indices and gluing the pieces gives it back. */
  lemma CutFour(s: string, pos: nat, p: nat, q: nat, u: nat, v: nat)
    requires pos <= p <= q <= u <= v <= |s|
    ensures s[pos..] == s[pos..p] + s[p..q] + s[q..u] + s[u..v] + s[v..]
  {
  }

  /** The rest from `pos` around two pieces known to be `o` (at `i`) and `c` (at `j`). */
  lemma Glue(s: string, pos: nat, i: nat, j: nat, o: string, c: string)
    requires pos <= i && i + |o| <= j && j + |c| <= |s|
    requires s[i..i + |o|] == o && s[j..j + |c|] == c
    ensures s[pos..] == s[pos..i] + o + s[i + |o|..j] + c + s[j + |c|..]
  {
    CutFour(s, pos, i, i + |o|, j, j + |c|);
  }

  /** A slice of a slice is a slice of the original. */
  lemma SliceOfSlice(s: string, a: nat, b: nat, c: nat, d: nat)
    requires a <= b <= |s| && c <= d <= b - a
    ensures s[a..b][c..d] == s[a + c..a + d]
  {
    forall k | 0 <= k < d - c ensures s[a..b][c..d][k] == s[a + c..a + d][k] {
      assert s[a..b][c..d][k] == s[a..b][c + k];
    }
  }

  /** An occurrence in the rest `s[pos..]` is an occurrence in `s`, shifted by `pos`, and back. */
  lemma OccursInRest(s: string, pos: nat, pat: string, k: nat)
    requires pos <= |s|
    ensures OccursAt(s[pos..], pat, k) <==> OccursAt(s, pat, pos + k)
  {
    if pos + k + |pat| <= |s| {
      SliceOfSlice(s, pos, |s|, k, k + |pat|);
    }
  }

  /** An occurrence inside the slice `s[a..b]` is an occurrence in `s`, shifted by `a`. */
  lemma OccursInSlice(s: string, a: nat, b: nat, pat: string, k: nat)
    requires a <= b <= |s| && OccursAt(s[a..b], pat, k)
    ensures OccursAt(s, pat, a + k) && a + k + |pat| <= b
  {
    SliceOfSlice(s, a, b, k, k + |pat|);
  }

  /** `pat` occurs in `s` starting at index `k`. */
  predicate OccursAt(s: string, pat: string, k: nat)
  {
    k + |pat| <= |s| && s[k..k + |pat|] == pat
  }

  /** `pat` occurs somewhere in `s`. */
  ghost predicate Contains(s: string, pat: string)
  {
    exists k: nat :: OccursAt(s, pat, k)
  }

  /** An occurrence at `k` is a witness for `Contains`. */
  lemma Witness(s: string, pat: string, k: nat)
    requires OccursAt(s, pat, k)
    ensures Contains(s, pat)
  {
  }

  /** An occurrence in `b` is still one after text is put in front of it. */
  lemma ContainsAfter(a: string, b: string, pat: string)
    requires Contains(b, pat)
    ensures Contains(a + b, pat)
  {
    var k: nat :| OccursAt(b, pat, k);
    assert (a + b)[|a| + k..|a| + k + |pat|] == b[k..k + |pat|];
    Witness(a + b, pat, |a| + k);
  }

  /** Character `t` of an occurrence at `k` is character `t` of the pattern. */
  lemma CharOfOccurrence(s: string, pat: string, k: nat, t: nat)
    requires OccursAt(s, pat, k) && t < |pat|
    ensures s[k + t] == pat[t]
  {
    assert s[k + t] == s[k..k + |pat|][t];
  }

  /** Trimming never cuts into an occurrence of a pattern that starts and ends with non-whitespace. */
  lemma TrimKeepsOccurrence(s: string, pat: string, k: nat)
    requires pat != [] && !IsWhitespace(pat[0]) && !IsWhitespace(pat[|pat| - 1])
    requires OccursAt(s, pat, k)
    ensures Contains(Trim(s), pat)
  {
    var r := Trim(s);
    TrimFrames(s);
    var i :| Framed(s, r, i);
    OccurrenceInsideCore(s, pat, k, r, i);
  }

  /** An occurrence that starts and ends with non-whitespace lies inside any whitespace-framed core. */
  lemma OccurrenceInsideCore(s: string, pat: string, k: nat, r: string, i: nat)
    requires pat != [] && !IsWhitespace(pat[0]) && !IsWhitespace(pat[|pat| - 1])
    requires OccursAt(s, pat, k)
    requires Framed(s, r, i)
    ensures Contains(r, pat)
  {
    var e := k + |pat| - 1;
    assert s[k] == s[k..k + |pat|][0] == pat[0];
    assert s[e] == s[k..k + |pat|][|pat| - 1] == pat[|pat| - 1];
    // Neither end of the occurrence can lie in the whitespace frame.
    if i <= k && e < i + |r| {
      SliceOfSlice(s, i, i + |r|, k - i, k - i + |pat|);
      assert OccursAt(r, pat, k - i);
    }
  }

  /** `s.startsWith(p)`. */
  predicate StartsWith(s: string, p: string)
  {
    OccursAt(s, p, 0)
  }

  /** `pat[t..]` occurs in `s` at `k + t`, compared one character at a time. */
  predicate MatchesFrom(s: string, pat: string, k: nat, t: nat)
    requires k + |pat| <= |s| && t <= |pat|
    decreases |pat| - t
  {
    t == |pat| || (s[k + t] == pat[t] && MatchesFrom(s, pat, k, t + 1))
  }

  /** The character-wise comparison agrees with slice equality. */
  lemma {:induction false} MatchesFromOccurs(s: string, pat: string, k: nat, t: nat)
    requires k + |pat| <= |s| && t <= |pat|
    ensures MatchesFrom(s, pat, k, t) <==> s[k + t..k + |pat|] == pat[t..]
    decreases |pat| - t
  {
    if t < |pat| {
      MatchesFromOccurs(s, pat, k, t + 1);
      assert s[k + t..k + |pat|] == [s[k + t]] + s[k + t + 1..k + |pat|];
      assert pat[t..] == [pat[t]] + pat[t + 1..];
    }
  }

  /** `s.indexOf(pat, from)`: the first occurrence of `pat` at or after `from`, if any (see `IndexOfFirst`). */
  function IndexOf(s: string, pat: string, from: nat): (r: Option<nat>)
    ensures r.Some? ==> from <= r.value && r.value + |pat| <= |s|
    decreases |s| - from
  {
    if from + |pat| > |s| then None
    else if MatchesFrom(s, pat, from, 0) then Some(from)
    else IndexOf(s, pat, from + 1)
  }

  /** `IndexOf` finds an occurrence at or after `from` with none before it, or reports that there is none. */
  lemma {:induction false} IndexOfFirst(s: string, pat: string, from: nat)
    ensures IndexOf(s, pat, from).None? ==> forall k: nat :: from <= k ==> !OccursAt(s, pat, k)
    ensures IndexOf(s, pat, from).Some? ==> from <= IndexOf(s, pat, from).value && OccursAt(s, pat, IndexOf(s, pat, from).value)
    ensures IndexOf(s, pat, from).Some? ==> forall k: nat :: from <= k < IndexOf(s, pat, from).value ==> !OccursAt(s, pat, k)
    decreases |s| - from
  {
    if from + |pat| <= |s| {
      MatchesFromOccurs(s, pat, from, 0);
      assert pat[0..] == pat;
      if !MatchesFrom(s, pat, from, 0) {
        IndexOfFirst(s, pat, from + 1);
      }
    }
  }

  /**
   * `s.split(sep)` for a one-character separator: the pieces between the
   * separators, in order, so that `"".split("\n")` is `[""]` and a
   * trailing separator yields a final empty piece.
   */
  function Split(s: string, sep: char): (r: seq<string>)
    ensures |r| >= 1
    ensures forall k :: 0 <= k < |r| ==> sep !in r[k]
  {
    if s == [] then [""]
    else if s[0] == sep then [""] + Split(s[1..], sep)
    else
      var rest := Split(s[1..], sep);
      [[s[0]] + rest[0]] + rest[1..]
  }

  /** `parts.join(sep)`. */
  function Join(parts: seq<string>, sep: char): string
  {
    if parts == [] then ""
    else if |parts| == 1 then parts[0]
    else parts[0] + [sep] + Join(parts[1..], sep)
  }

  /** Joining the pieces of a split gives back the string. */
  lemma {:induction false} JoinSplit(s: string, sep: char)
    ensures Join(Split(s, sep), sep) == s
    decreases |s|
  {
    if s == [] {
    } else if s[0] == sep {
      JoinSplit(s[1..], sep);
      assert s == [sep] + s[1..];
    } else {
      JoinSplit(s[1..], sep);
      var rest := Split(s[1..], sep);
      if |rest| == 1 {
        assert Split(s, sep) == [[s[0]] + rest[0]];
      } else {
        assert Split(s, sep)[1..] == rest[1..];
        assert s == [s[0]] + s[1..];
      }
    }
  }

  /** A piece without the separator, then the separator: the split starts with that piece. */
  lemma {:induction false} SplitAfterPiece(x: string, sep: char, y: string)
    requires sep !in x
    ensures Split(x + [sep] + y, sep) == [x] + Split(y, sep)
    decreases |x|
  {
    if x == [] {
      assert x + [sep] + y == [sep] + y;
    } else {
      SplitAfterPiece(x[1..], sep, y);
      assert (x + [sep] + y)[1..] == x[1..] + [sep] + y;
      assert [x[0]] + x[1..] == x;
    }
  }

  /** A string without the separator splits into itself alone. */
  lemma {:induction false} SplitNoSeparator(x: string, sep: char)
    requires sep !in x
    ensures Split(x, sep) == [x]
    decreases |x|
  {
    if x != [] {
      SplitNoSeparator(x[1..], sep);
      assert [x[0]] + x[1..] == x;
    }
  }

  /** Splitting a join of separator-free pieces gives back the pieces. */
  lemma {:induction false} SplitJoin(parts: seq<string>, sep: char)
    requires |parts| >= 1
    requires forall k :: 0 <= k < |parts| ==> sep !in parts[k]
    ensures Split(Join(parts, sep), sep) == parts
  {
    if |parts| == 1 {
      SplitNoSeparator(parts[0], sep);
    } else {
      SplitJoin(parts[1..], sep);
      SplitAfterPiece(parts[0], sep, Join(parts[1..], sep));
      assert [parts[0]] + parts[1..] == parts;
    }
  }
}

/**
 * `removeThinkTags` (src/App.jsx): `text.replace(/<think>.*?<\/think>/gs, "").trim()`.
 *
 * The global, non-greedy, dot-all pattern scans from the left: it takes the
 * leftmost `<think>` that still has a `</think>` after it, pairs it with the
 * nearest such `</think>` (the body may span lines), replaces the whole span
 * with the empty string and resumes right after it. The model follows that
 * scan directly instead of modelling a regular-expression engine: `Scan`
 * records the spans it matches, and the replaced text is what lies outside
 * them.
 *
 * The scan is stated for any open tag `o` and close tag `c` and
 * instantiated with `<think>` and `</think>`; the general facts need only
 * that each tag starts with `<` and holds no other `<`.
 */
module ThinkTags {
  import opened Wrappers
  import opened Text

  /** The open tag of the pattern that `removeThinkTags` deletes. */
  const Open: string := "<think>"

  /** Its close tag. */
  const Close: string := "</think>"

  /** A tag that starts with `<` and holds no other `<`: two occurrences of it never overlap. */
  predicate IsTag(t: string)
  {
    t != [] && t[0] == '<' && forall k :: 1 <= k < |t| ==> t[k] != '<'
  }

  /** Both tags are such tags. */
  predicate WellFormed(o: string, c: string)
  {
    IsTag(o) && IsTag(c)
  }

  /** `<think>` and `</think>` are such tags. */
  lemma ThinkWellFormed()
    ensures WellFormed(Open, Close)
  {
    assert forall k :: 1 <= k < |Open| ==> Open[k] != '<';
    assert forall k :: 1 <= k < |Close| ==> Close[k] != '<';
  }

  /** One matched span: the text kept before it, and the reasoning between the tags. */
  datatype Span = Span(kept: string, reasoning: string)

  /** The spans a scan matches, in order, and the text after the last of them. */
  datatype Decomposition = Decomposition(spans: seq<Span>, tail: string)

  /** The text that a list of spans followed by `tail` spells. */
  function Spell(spans: seq<Span>, tail: string, o: string, c: string): string
  {
    if spans == [] then tail
    else spans[0].kept + o + spans[0].reasoning + c + Spell(spans[1..], tail, o, c)
  }

  /** What stays of that text once every span is replaced with the empty string. */
  function Visible(spans: seq<Span>, tail: string): string
  {
    if spans == [] then tail
    else spans[0].kept + Visible(spans[1..], tail)
  }

  /**
   * The scan from position `pos` on (the pattern's `lastIndex`): the spans it
   * matches and the unmatched rest (see `ScanSpells`).
   */
  function Scan(s: string, o: string, c: string, pos: nat): Decomposition
    requires c != [] && pos <= |s|
    decreases |s| - pos
  {
    match IndexOf(s, o, pos)
    case None => Decomposition([], s[pos..])
    case Some(i) =>
      match IndexOf(s, c, i + |o|)
      case None => Decomposition([], s[pos..])
      case Some(j) =>
        var rest := Scan(s, o, c, j + |c|);
        Decomposition([Span(s[pos..i], s[i + |o|..j])] + rest.spans, rest.tail)
  }

  /** The matched spans and the unmatched rest together spell the text from `pos`. */
  lemma {:induction false} ScanSpells(s: string, o: string, c: string, pos: nat)
    requires c != [] && pos <= |s|
    ensures var d := Scan(s, o, c, pos); Spell(d.spans, d.tail, o, c) == s[pos..]
    decreases |s| - pos, 1
  {
    match IndexOf(s, o, pos)
    case None =>
      ScanSpellsNone(s, o, c, pos);
    case Some(i) =>
      match IndexOf(s, c, i + |o|)
      {
        case None =>
          ScanSpellsNone(s, o, c, pos);
        case Some(j) =>
          ScanSpellsStep(s, o, c, pos, i, j);
      }
  }

  /** The last step of `ScanSpells`: an unmatched rest spells itself. */
  lemma ScanSpellsNone(s: string, o: string, c: string, pos: nat)
    requires c != [] && pos <= |s|
    requires IndexOf(s, o, pos).None? || IndexOf(s, c, IndexOf(s, o, pos).value + |o|).None?
    ensures var d := Scan(s, o, c, pos); Spell(d.spans, d.tail, o, c) == s[pos..]
  {
    ScanNone(s, o, c, pos);
  }

  /** The step of `ScanSpells`: a matched span followed by a rest that spells the text after it. */
  lemma {:induction false} ScanSpellsStep(s: string, o: string, c: string, pos: nat, i: nat, j: nat)
    requires c != [] && pos <= |s| && IndexOf(s, o, pos) == Some(i) && IndexOf(s, c, i + |o|) == Some(j)
    ensures var d := Scan(s, o, c, pos); Spell(d.spans, d.tail, o, c) == s[pos..]
    decreases |s| - pos, 0
  {
    FoundTags(s, o, c, pos, i, j);
    ScanSpells(s, o, c, j + |c|);
    var rest := Scan(s, o, c, j + |c|);
    SpellFoundSpan(s, o, c, pos, i, j, rest.spans, rest.tail);
    ScanFound(s, o, c, pos, i, j);
  }

  /** The scan step that matches the span from `i` to the end of the close tag at `j`. */
  lemma ScanFound(s: string, o: string, c: string, pos: nat, i: nat, j: nat)
    requires c != [] && pos <= |s| && IndexOf(s, o, pos) == Some(i) && IndexOf(s, c, i + |o|) == Some(j)
    ensures var rest := Scan(s, o, c, j + |c|);
      Scan(s, o, c, pos) == Decomposition([Span(s[pos..i], s[i + |o|..j])] + rest.spans, rest.tail)
  {
  }

  /** The scan step when no span is left to match. */
  lemma ScanNone(s: string, o: string, c: string, pos: nat)
    requires c != [] && pos <= |s|
    requires IndexOf(s, o, pos).None? || IndexOf(s, c, IndexOf(s, o, pos).value + |o|).None?
    ensures Scan(s, o, c, pos) == Decomposition([], s[pos..])
  {
  }

  /** `s.replace(/<think>.*?<\/think>/gs, "")`: the text with every matched span deleted, before trimming. */
  function StripSpans(s: string): string
  {
    var d := Scan(s, Open, Close, 0);
    Visible(d.spans, d.tail)
  }

  /** `removeThinkTags(text)`. */
  function RemoveThinkTags(text: string): (r: string)
    ensures r != [] ==> !IsWhitespace(r[0]) && !IsWhitespace(r[|r| - 1])
  {
    Trim(StripSpans(text))
  }

  /** `s` holds an open tag with a close tag somewhere after it: a span the pattern matches. */
  ghost predicate HasPair(s: string, o: string, c: string)
  {
    exists i: nat, j: nat :: OccursAt(s, o, i) && i + |o| <= j && OccursAt(s, c, j)
  }

  /** `s` holds a `<think>` with a `</think>` somewhere after it. */
  ghost predicate HasSpan(s: string)
  {
    HasPair(s, Open, Close)
  }

  /**
   * The pairing the pattern makes: every span's open tag is the leftmost
   * one (no open tag in the kept text), its close tag is the nearest one
   * (no close tag inside the reasoning), and the tail holds no complete span.
   */
  ghost predicate Paired(spans: seq<Span>, tail: string, o: string, c: string)
  {
    if spans == [] then !HasPair(tail, o, c)
    else !Contains(spans[0].kept, o) && !Contains(spans[0].reasoning, c) && Paired(spans[1..], tail, o, c)
  }

  /** The scan pairs each open tag with the nearest close tag and leaves no span in its rest. */
  lemma {:induction false} ScanPaired(s: string, o: string, c: string, pos: nat)
    requires WellFormed(o, c) && pos <= |s|
    ensures var d := Scan(s, o, c, pos); Paired(d.spans, d.tail, o, c)
    decreases |s| - pos, 1
  {
    match IndexOf(s, o, pos)
    case None =>
      NoOpenNoPair(s, o, c, pos);
      ScanNone(s, o, c, pos);
    case Some(i) =>
      match IndexOf(s, c, i + |o|)
      {
        case None =>
          NoCloseNoPair(s, o, c, pos, i);
          ScanNone(s, o, c, pos);
        case Some(j) =>
          ScanPairedStep(s, o, c, pos, i, j);
      }
  }

  /** The step of `ScanPaired`: the matched span is paired, and so is the rest after it. */
  lemma {:induction false} ScanPairedStep(s: string, o: string, c: string, pos: nat, i: nat, j: nat)
    requires WellFormed(o, c) && pos <= |s| && IndexOf(s, o, pos) == Some(i) && IndexOf(s, c, i + |o|) == Some(j)
    ensures var d := Scan(s, o, c, pos); Paired(d.spans, d.tail, o, c)
    decreases |s| - pos, 0
  {
    FoundOpenIsLeftmost(s, o, c, pos, i);
    FoundCloseIsNearest(s, o, c, i, j);
    FoundTags(s, o, c, pos, i, j);
    ScanPaired(s, o, c, j + |c|);
    var rest := Scan(s, o, c, j + |c|);
    PairedCons(Span(s[pos..i], s[i + |o|..j]), rest.spans, rest.tail, o, c);
    ScanFound(s, o, c, pos, i, j);
  }

  /**
   * Any decomposition of the text into leftmost-open, nearest-close spans is
   * the one the scan makes.
   */
  lemma {:induction false} ScanUnique(s: string, o: string, c: string, pos: nat, spans: seq<Span>, tail: string)
    requires WellFormed(o, c)
    requires pos <= |s| && s[pos..] == Spell(spans, tail, o, c) && Paired(spans, tail, o, c)
    ensures Scan(s, o, c, pos) == Decomposition(spans, tail)
    decreases |spans|
  {
    if spans == [] {
      ScanNoPair(s, o, c, pos);
    } else {
      var i, j := ScanUniqueRest(s, o, c, pos, spans, tail);
      ScanUnique(s, o, c, j + |c|, spans[1..], tail);
      ScanUniqueStep(s, o, c, pos, i, j, spans, tail);
    }
  }

  /** Where the first span of a paired decomposition sits, and what the scan sees after it. */
  lemma ScanUniqueRest(s: string, o: string, c: string, pos: nat, spans: seq<Span>, tail: string) returns (i: nat, j: nat)
    requires pos <= |s| && spans != [] && s[pos..] == Spell(spans, tail, o, c) && Paired(spans, tail, o, c)
    ensures pos <= i && i + |o| <= j && OccursAt(s, o, i) && OccursAt(s, c, j)
    ensures s[pos..i] == spans[0].kept && s[i + |o|..j] == spans[0].reasoning
    ensures !Contains(spans[0].kept, o) && !Contains(spans[0].reasoning, c)
    ensures j + |c| <= |s| && s[j + |c|..] == Spell(spans[1..], tail, o, c) && Paired(spans[1..], tail, o, c)
  {
    i := pos + |spans[0].kept|;
    j := i + |o| + |spans[0].reasoning|;
    SpellFront(s, o, c, pos, spans[0], Spell(spans[1..], tail, o, c));
  }

  /** The step of `ScanUnique`: the first span is the one the scan matches, and the rest is already known. */
  lemma ScanUniqueStep(s: string, o: string, c: string, pos: nat, i: nat, j: nat, spans: seq<Span>, tail: string)
    requires WellFormed(o, c) && spans != []
    requires pos <= i && i + |o| <= j && OccursAt(s, o, i) && OccursAt(s, c, j)
    requires s[pos..i] == spans[0].kept && s[i + |o|..j] == spans[0].reasoning
    requires !Contains(spans[0].kept, o) && !Contains(spans[0].reasoning, c)
    requires Scan(s, o, c, j + |c|) == Decomposition(spans[1..], tail)
    ensures Scan(s, o, c, pos) == Decomposition(spans, tail)
  {
    ScanFirstSpan(s, o, c, pos, i, j);
    SpansCons(spans, Span(s[pos..i], s[i + |o|..j]));
  }

  /**
   * A non-empty list of spans is its first span followed by the rest.
   * Stated apart so that `ScanUniqueStep` uses it as one small fact;
   * written inline there, it made that proof exceed the solver's
   * resource limit.
   */
  lemma SpansCons(spans: seq<Span>, sp: Span)
    requires spans != [] && spans[0] == sp
    ensures spans == [sp] + spans[1..]
  {
  }

  /** A scan that meets one paired span matches exactly that span and goes on after it. */
  lemma ScanFirstSpan(s: string, o: string, c: string, pos: nat, i: nat, j: nat)
    requires WellFormed(o, c)
    requires pos <= i && i + |o| <= j && OccursAt(s, o, i) && OccursAt(s, c, j)
    requires !Contains(s[pos..i], o) && !Contains(s[i + |o|..j], c)
    ensures var rest := Scan(s, o, c, j + |c|);
      Scan(s, o, c, pos) == Decomposition([Span(s[pos..i], s[i + |o|..j])] + rest.spans, rest.tail)
  {
    FirstOccurrence(s, o, pos, i);
    FirstOccurrence(s, c, i + |o|, j);
    ScanFound(s, o, c, pos, i, j);
  }

  /** A scan over a rest that holds no complete span matches nothing. */
  lemma ScanNoPair(s: string, o: string, c: string, pos: nat)
    requires c != [] && pos <= |s| && !HasPair(s[pos..], o, c)
    ensures Scan(s, o, c, pos) == Decomposition([], s[pos..])
  {
    IndexOfFirst(s, o, pos);
    match IndexOf(s, o, pos)
    case None =>
      ScanNone(s, o, c, pos);
    case Some(i) =>
      IndexOfFirst(s, c, i + |o|);
      match IndexOf(s, c, i + |o|)
      {
        case None =>
          ScanNone(s, o, c, pos);
        case Some(j) =>
          PairInRest(s, o, c, pos, i, j);
      }
  }

  /** Deleting spans never lengthens a text, and deleting at least one shortens it. */
  lemma {:induction false} VisibleShorter(spans: seq<Span>, tail: string, o: string, c: string)
    requires c != []
    ensures |Visible(spans, tail)| <= |Spell(spans, tail, o, c)|
    ensures spans != [] ==> |Visible(spans, tail)| < |Spell(spans, tail, o, c)|
  {
    if spans != [] {
      VisibleShorter(spans[1..], tail, o, c);
    }
  }

  /** `StripSpans` deletes exactly the spans of any leftmost-open, nearest-close decomposition. */
  lemma StripSpansDeletesPairedSpans(spans: seq<Span>, tail: string)
    requires Paired(spans, tail, Open, Close)
    ensures StripSpans(Spell(spans, tail, Open, Close)) == Visible(spans, tail)
  {
    var s := Spell(spans, tail, Open, Close);
    assert s[0..] == s;
    ThinkWellFormed();
    ScanUnique(s, Open, Close, 0, spans, tail);
  }

  /** Every text decomposes into paired spans, and `StripSpans` keeps what lies outside them. */
  lemma StripSpansDecomposes(s: string)
    ensures exists spans, tail :: Paired(spans, tail, Open, Close) && Spell(spans, tail, Open, Close) == s && Visible(spans, tail) == StripSpans(s)
  {
    ThinkWellFormed();
    var d := Scan(s, Open, Close, 0);
    ScanPaired(s, Open, Close, 0);
    ScanSpells(s, Open, Close, 0);
    assert s[0..] == s;
    assert Paired(d.spans, d.tail, Open, Close) && Spell(d.spans, d.tail, Open, Close) == s && Visible(d.spans, d.tail) == StripSpans(s);
  }

  /** `StripSpans` leaves the text alone exactly when it holds no complete span; otherwise it shrinks. */
  lemma StripSpansUnchanged(s: string)
    ensures StripSpans(s) == s <==> !HasSpan(s)
    ensures HasSpan(s) ==> |StripSpans(s)| < |s|
  {
    var d := Scan(s, Open, Close, 0);
    assert s[0..] == s;
    if HasSpan(s) {
      ThinkWellFormed();
      ScanPaired(s, Open, Close, 0);
      ScanSpells(s, Open, Close, 0);
      VisibleShorter(d.spans, d.tail, Open, Close);
    } else {
      ScanNoPair(s, Open, Close, 0);
    }
  }

  /** Without a complete span the output is the trimmed input. */
  lemma NoSpanOnlyTrims(s: string)
    requires !HasSpan(s)
    ensures RemoveThinkTags(s) == Trim(s)
  {
    StripSpansUnchanged(s);
  }

  /** The empty reply shows as the empty text. */
  lemma RemoveThinkTagsEmpty()
    ensures RemoveThinkTags("") == ""
  {
    assert !HasSpan("");
    NoSpanOnlyTrims("");
    TrimKeepsTagged();
  }

  /**
   * An open tag with no close tag after it survives, even after earlier
   * spans were deleted: the reply of a stream whose last reasoning is not
   * yet closed still shows that `<think>`.
   */
  lemma UnclosedTagKept(s: string, k: nat)
    requires OccursAt(s, Open, k)
    requires forall j: nat :: k + |Open| <= j ==> !OccursAt(s, Close, j)
    ensures Contains(RemoveThinkTags(s), Open)
  {
    ThinkWellFormed();
    ThinkDistinct();
    ScanKeepsUnclosed(s, Open, Close, 0, k);
    var t := StripSpans(s);
    var q: nat :| OccursAt(t, Open, q);
    TagEndsNotWhitespace();
    TrimKeepsOccurrence(t, Open, q);
  }

  /** No close tag starts at or after `from`. */
  ghost predicate NoCloseFrom(s: string, c: string, from: nat)
  {
    forall j: nat :: from <= j ==> !OccursAt(s, c, j)
  }

  /** The tags differ in their second character, so they never start at the same place. */
  predicate Distinct(o: string, c: string)
  {
    |o| > 1 && |c| > 1 && o[1] != c[1]
  }

  /** `<think>` and `</think>` differ in their second character. */
  lemma ThinkDistinct()
    ensures Distinct(Open, Close)
  {
  }

  /** An open tag at `k` with no close tag after it survives the scan from any `pos` up to `k`. */
  lemma {:induction false} ScanKeepsUnclosed(s: string, o: string, c: string, pos: nat, k: nat)
    requires WellFormed(o, c) && Distinct(o, c)
    requires pos <= k && OccursAt(s, o, k) && NoCloseFrom(s, c, k + |o|)
    ensures var d := Scan(s, o, c, pos); Contains(Visible(d.spans, d.tail), o)
    decreases |s| - pos, 1
  {
    match IndexOf(s, o, pos)
    case None =>
      KeptInTail(s, o, c, pos, k);
    case Some(i) =>
      match IndexOf(s, c, i + |o|)
      {
        case None =>
          KeptInTail(s, o, c, pos, k);
        case Some(j) =>
          ScanKeepsUnclosedStep(s, o, c, pos, i, j, k);
      }
  }

  /** When the scan stops before `k`, the tag is in the unmatched rest. */
  lemma KeptInTail(s: string, o: string, c: string, pos: nat, k: nat)
    requires c != [] && pos <= k && OccursAt(s, o, k)
    requires IndexOf(s, o, pos).None? || IndexOf(s, c, IndexOf(s, o, pos).value + |o|).None?
    ensures var d := Scan(s, o, c, pos); Contains(Visible(d.spans, d.tail), o)
  {
    OccursInRest(s, pos, o, k - pos);
    Witness(s[pos..], o, k - pos);
    ScanNone(s, o, c, pos);
  }

  /** The step of `ScanKeepsUnclosed`: the matched span ends before `k`, and the rest keeps the tag. */
  lemma {:induction false} ScanKeepsUnclosedStep(s: string, o: string, c: string, pos: nat, i: nat, j: nat, k: nat)
    requires WellFormed(o, c) && Distinct(o, c)
    requires pos <= k && OccursAt(s, o, k) && NoCloseFrom(s, c, k + |o|)
    requires IndexOf(s, o, pos) == Some(i) && IndexOf(s, c, i + |o|) == Some(j)
    ensures var d := Scan(s, o, c, pos); Contains(Visible(d.spans, d.tail), o)
    decreases |s| - pos, 0
  {
    FoundTags(s, o, c, pos, i, j);
    FoundNoLater(s, o, pos, k);
    PastSpan(s, o, c, i, j, k);
    ScanKeepsUnclosed(s, o, c, j + |c|, k);
    var rest := Scan(s, o, c, j + |c|);
    KeptAfterSpan(Span(s[pos..i], s[i + |o|..j]), rest.spans, rest.tail, o);
    ScanFound(s, o, c, pos, i, j);
  }

  /**
   * A span that opens at or before an unclosed tag at `k` ends before it:
   * its close tag can neither lie after `k`, nor start inside the tag, at
   * it, or with the tag starting inside it.
   */
  lemma PastSpan(s: string, o: string, c: string, i: nat, j: nat, k: nat)
    requires WellFormed(o, c) && Distinct(o, c)
    requires i <= k && i + |o| <= j && OccursAt(s, c, j)
    requires OccursAt(s, o, k) && NoCloseFrom(s, c, k + |o|)
    ensures j + |c| <= k
  {
    if k < j < k + |o| {
      CharOfOccurrence(s, c, j, 0);
      CharOfOccurrence(s, o, k, j - k);
      assert false;
    } else if k == j {
      CharOfOccurrence(s, c, j, 1);
      CharOfOccurrence(s, o, k, 1);
      assert false;
    } else if j < k < j + |c| {
      CharOfOccurrence(s, o, k, 0);
      CharOfOccurrence(s, c, j, k - j);
      assert false;
    }
  }

  /** Deleting a span in front keeps an occurrence in what follows it. */
  lemma KeptAfterSpan(sp: Span, spans: seq<Span>, tail: string, o: string)
    requires Contains(Visible(spans, tail), o)
    ensures Contains(Visible([sp] + spans, tail), o)
  {
    assert ([sp] + spans)[0] == sp && ([sp] + spans)[1..] == spans;
    ContainsAfter(sp.kept, Visible(spans, tail), o);
  }

  /** `<think>` starts with `<` and ends with `>`, neither of which `trim` removes. */
  lemma TagEndsNotWhitespace()
    ensures var o := Open; o != [] && !IsWhitespace(o[0]) && !IsWhitespace(o[|o| - 1])
  {
  }

  /**
   * A tag cannot overlap itself, so when it occurs at `e` and not inside
   * `s[from..e]`, the first occurrence at or after `from` is the one at `e`.
   */
  lemma FirstOccurrence(s: string, pat: string, from: nat, e: nat)
    requires IsTag(pat)
    requires from <= e && OccursAt(s, pat, e) && !Contains(s[from..e], pat)
    ensures IndexOf(s, pat, from) == Some(e)
  {
    IndexOfFirst(s, pat, from);
    var q := IndexOf(s, pat, from).value;
    // An occurrence before `e` would lie inside `s[from..e]` or overlap the one at `e`.
    if q < e {
      if q + |pat| <= e {
        SliceOfSlice(s, from, e, q - from, q - from + |pat|);
        Witness(s[from..e], pat, q - from);
      } else {
        NoSelfOverlap(s, pat, q, e);
      }
    }
  }

  /** Two occurrences of a tag never overlap: the later one's `<` would fall inside the earlier one. */
  lemma NoSelfOverlap(s: string, pat: string, q: nat, e: nat)
    requires IsTag(pat)
    requires q < e < q + |pat|
    ensures !(OccursAt(s, pat, q) && OccursAt(s, pat, e))
  {
    if OccursAt(s, pat, q) && OccursAt(s, pat, e) {
      CharOfOccurrence(s, pat, q, e - q);
      assert false;
    }
  }

  /** The search from `from` finds an occurrence, and none later than any occurrence at `k`. */
  lemma FoundNoLater(s: string, pat: string, from: nat, k: nat)
    requires from <= k && OccursAt(s, pat, k)
    ensures IndexOf(s, pat, from).Some? && IndexOf(s, pat, from).value <= k
  {
    IndexOfFirst(s, pat, from);
  }

  /** A span at or after `pos` is a span of the rest `s[pos..]`. */
  lemma PairInRest(s: string, o: string, c: string, pos: nat, i: nat, j: nat)
    requires pos <= i && i + |o| <= j && OccursAt(s, o, i) && OccursAt(s, c, j)
    ensures HasPair(s[pos..], o, c)
  {
    OccursInRest(s, pos, o, i - pos);
    OccursInRest(s, pos, c, j - pos);
    assert OccursAt(s[pos..], o, i - pos) && OccursAt(s[pos..], c, j - pos);
  }

  /** Where the pieces of a span written out at `pos` sit in the text. */
  lemma SpellFront(s: string, o: string, c: string, pos: nat, sp: Span, rest: string)
    requires pos <= |s| && s[pos..] == sp.kept + o + sp.reasoning + c + rest
    ensures var i := pos + |sp.kept|; var j := i + |o| + |sp.reasoning|;
      && j + |c| <= |s|
      && s[pos..i] == sp.kept && OccursAt(s, o, i)
      && s[i + |o|..j] == sp.reasoning && OccursAt(s, c, j)
      && s[j + |c|..] == rest
  {
    var t := s[pos..];
    var i := pos + |sp.kept|;
    var j := i + |o| + |sp.reasoning|;
    var next := j + |c|;
    SliceOfSlice(s, pos, |s|, 0, |sp.kept|);
    SliceOfSlice(s, pos, |s|, |sp.kept|, |sp.kept| + |o|);
    SliceOfSlice(s, pos, |s|, |sp.kept| + |o|, j - pos);
    SliceOfSlice(s, pos, |s|, j - pos, next - pos);
    assert t[..|sp.kept|] == sp.kept;
    assert t[|sp.kept|..|sp.kept| + |o|] == o;
    assert t[|sp.kept| + |o|..j - pos] == sp.reasoning;
    assert t[j - pos..next - pos] == c;
    assert t[next - pos..] == rest;
  }

  /** No open tag lies between the scan position and the first one the scan finds. */
  lemma FoundOpenIsLeftmost(s: string, o: string, c: string, pos: nat, i: nat)
    requires WellFormed(o, c) && IndexOf(s, o, pos) == Some(i)
    ensures !Contains(s[pos..i], o)
  {
    IndexOfFirst(s, o, pos);
    forall q: nat | OccursAt(s[pos..i], o, q) ensures false {
      OccursInSlice(s, pos, i, o, q);
    }
  }

  /** No close tag lies between the open tag and the close tag the scan pairs it with. */
  lemma FoundCloseIsNearest(s: string, o: string, c: string, i: nat, j: nat)
    requires WellFormed(o, c) && IndexOf(s, c, i + |o|) == Some(j)
    ensures !Contains(s[i + |o|..j], c)
  {
    var lo := i + |o|;
    IndexOfFirst(s, c, lo);
    forall q: nat | OccursAt(s[lo..j], c, q) ensures false {
      OccursInSlice(s, lo, j, c, q);
    }
  }

  /** Putting a paired span in front of a paired decomposition keeps it paired. */
  lemma PairedCons(sp: Span, spans: seq<Span>, tail: string, o: string, c: string)
    requires !Contains(sp.kept, o) && !Contains(sp.reasoning, c)
    requires Paired(spans, tail, o, c)
    ensures Paired([sp] + spans, tail, o, c)
  {
    assert ([sp] + spans)[0] == sp && ([sp] + spans)[1..] == spans;
  }

  /** Spelling and keeping, one span at the front. */
  lemma SpellCons(sp: Span, spans: seq<Span>, tail: string, o: string, c: string)
    ensures Spell([sp] + spans, tail, o, c) == sp.kept + o + sp.reasoning + c + Spell(spans, tail, o, c)
    ensures Visible([sp] + spans, tail) == sp.kept + Visible(spans, tail)
  {
    assert ([sp] + spans)[0] == sp && ([sp] + spans)[1..] == spans;
  }

  /** With no open tag from `pos` on, the rest holds no complete span. */
  lemma NoOpenNoPair(s: string, o: string, c: string, pos: nat)
    requires pos <= |s| && IndexOf(s, o, pos).None?
    ensures !HasPair(s[pos..], o, c)
  {
    if HasPair(s[pos..], o, c) {
      var i: nat, j: nat :| OccursAt(s[pos..], o, i) && i + |o| <= j && OccursAt(s[pos..], c, j);
      OccursInRest(s, pos, o, i);
      FoundNoLater(s, o, pos, pos + i);
    }
  }

  /** With no close tag after the first open tag from `pos` on, the rest holds no complete span. */
  lemma NoCloseNoPair(s: string, o: string, c: string, pos: nat, i: nat)
    requires pos <= |s| && IndexOf(s, o, pos) == Some(i) && IndexOf(s, c, i + |o|).None?
    ensures !HasPair(s[pos..], o, c)
  {
    if HasPair(s[pos..], o, c) {
      var i': nat, j': nat :| OccursAt(s[pos..], o, i') && i' + |o| <= j' && OccursAt(s[pos..], c, j');
      OccursInRest(s, pos, o, i');
      OccursInRest(s, pos, c, j');
      NoLaterPair(s, o, c, pos, i, pos + i', pos + j');
    }
  }

  /** When `b` is not found after the first `a`, no `a` from `pos` on has a `b` after it. */
  lemma NoLaterPair(s: string, a: string, b: string, pos: nat, i: nat, k1: nat, k2: nat)
    requires IndexOf(s, a, pos) == Some(i) && IndexOf(s, b, i + |a|).None?
    requires pos <= k1 && k1 + |a| <= k2 && OccursAt(s, a, k1)
    ensures !OccursAt(s, b, k2)
  {
    FoundNoLater(s, a, pos, k1);
    IndexOfFirst(s, b, i + |a|);
  }

  /** The tags the scan finds are where it says they are. */
  lemma FoundTags(s: string, o: string, c: string, pos: nat, i: nat, j: nat)
    requires IndexOf(s, o, pos) == Some(i) && IndexOf(s, c, i + |o|) == Some(j)
    ensures pos <= i && i + |o| <= j && OccursAt(s, o, i) && OccursAt(s, c, j)
  {
    IndexOfFirst(s, o, pos);
    IndexOfFirst(s, c, i + |o|);
  }

  /** The text between `pos` and a found span, the span, and the spelled rest make up the text from `pos`. */
  lemma SpellFoundSpan(s: string, o: string, c: string, pos: nat, i: nat, j: nat, spans: seq<Span>, tail: string)
    requires pos <= i && i + |o| <= j && OccursAt(s, o, i) && OccursAt(s, c, j)
    requires Spell(spans, tail, o, c) == s[j + |c|..]
    ensures Spell([Span(s[pos..i], s[i + |o|..j])] + spans, tail, o, c) == s[pos..]
    ensures Visible([Span(s[pos..i], s[i + |o|..j])] + spans, tail) == s[pos..i] + Visible(spans, tail)
  {
    SpellCons(Span(s[pos..i], s[i + |o|..j]), spans, tail, o, c);
    Glue(s, pos, i, j, o, c);
  }

  /**
   * `removeThinkTags` is not idempotent: deleting the first span joins
   * `<thi` and `nk>` into a new open tag, which a second pass pairs with the
   * leftover close tag.
   */
  lemma RemoveThinkTagsNotIdempotent()
    ensures RemoveThinkTags("<thi<think>x</think>nk>a</think>") == "<think>a</think>"
    ensures RemoveThinkTags(RemoveThinkTags("<thi<think>x</think>nk>a</think>")) == ""
  {
    FirstPass();
    SecondPass();
    TrimKeepsTagged();
  }

  /** The first pass deletes `<think>x</think>` and nothing else. */
  lemma FirstPass()
    ensures StripSpans("<thi<think>x</think>nk>a</think>") == "<think>a</think>"
  {
    var spans := [Span("<thi", "x")];
    FirstPassPaired();
    FirstPassSpelled();
    StripSpansDeletesPairedSpans(spans, "nk>a</think>");
  }

  /** The first pass's decomposition is leftmost-open, nearest-close. */
  lemma FirstPassPaired()
    ensures Paired([Span("<thi", "x")], "nk>a</think>", Open, Close)
  {
    TailHasNoSpan();
  }

  /** The first pass's decomposition spells the input and keeps `<thi` and the tail. */
  lemma FirstPassSpelled()
    ensures Spell([Span("<thi", "x")], "nk>a</think>", Open, Close) == "<thi<think>x</think>nk>a</think>"
    ensures Visible([Span("<thi", "x")], "nk>a</think>") == "<think>a</think>"
  {
    SpellOne(Span("<thi", "x"), "nk>a</think>", Open, Close);
    FirstPassPieces();
  }

  /** The pieces of the first pass's decomposition, glued. */
  lemma FirstPassPieces()
    ensures "<thi" + Open + "x" + Close + "nk>a</think>" == "<thi<think>x</think>nk>a</think>"
    ensures "<thi" + "nk>a</think>" == "<think>a</think>"
  {
    assert "<thi" + Open + "x" == "<thi<think>x";
    assert Close + "nk>a</think>" == "</think>nk>a</think>";
  }

  /** Spelling and keeping a single span. */
  lemma SpellOne(sp: Span, tail: string, o: string, c: string)
    ensures Spell([sp], tail, o, c) == sp.kept + o + sp.reasoning + c + tail
    ensures Visible([sp], tail) == sp.kept + tail
  {
    assert [sp][1..] == [];
  }

  /** The text left after the first deleted span holds no `<think>`. */
  lemma TailHasNoSpan()
    ensures !HasPair("nk>a</think>", Open, Close)
  {
    var tail := "nk>a</think>";
    forall i: nat | OccursAt(tail, Open, i) ensures false {
      CharOfOccurrence(tail, Open, i, 0);
      CharOfOccurrence(tail, Open, i, 1);
    }
  }

  /** The second pass deletes the whole remaining text. */
  lemma SecondPass()
    ensures StripSpans("<think>a</think>") == ""
  {
    var spans := [Span("", "a")];
    assert Paired(spans, "", Open, Close);
    assert Spell(spans, "", Open, Close) == "<think>a</think>" by {
      assert spans[1..] == [];
    }
    StripSpansDeletesPairedSpans(spans, "");
    assert Visible(spans, "") == "" by {
      assert spans[1..] == [];
    }
  }

  /** Trimming leaves a text that starts with `<` and ends with `>` as it is. */
  lemma TrimKeepsTagged()
    ensures Trim("<think>a</think>") == "<think>a</think>"
    ensures Trim("") == ""
  {
    var t := "<think>a</think>";
    assert !IsWhitespace(t[0]) && !IsWhitespace(t[|t| - 1]);
    TrimUntouched(t);
    TrimUntouched("");
  }
}

/**
 * How the read loop of `fetchApi` (src/App.jsx) turns the decoded chunks of
 * a streamed completion into the reply text `fullResponse`.
 *
 * Each chunk is split on "\n" on its own, with no carry-over between
 * chunks. A line that is blank or does not start with `data: ` is skipped.
 * Otherwise one leading `data: ` is removed and the rest is handed to
 * `JSON.parse`. That parser stays abstract here: a `Parser` maps the payload
 * to `Malformed`, which stands for every exception the `try` around it
 * catches, or to the frame's optional `choices[0].delta.content`. A
 * non-empty content is appended to the reply.
 */
module Frames {
  import opened Wrappers
  import opened Text

  /** What the parser makes of one payload. */
  datatype Parsed =
    | Malformed                      // `JSON.parse` threw, or the frame has no `choices[0]`
    | Frame(content: Option<string>) // `choices[0].delta?.content`, when it is a string

  /** `JSON.parse(payload)` followed by the lookup of `choices[0].delta?.content`. */
  type Parser = string -> Parsed

  /** The prefix of every event line that carries a frame. */
  const DataPrefix: string := "data: "

  /** The line separator of the event stream. */
  const Newline: char := '\n'

  /** `!line.trim() || !line.startsWith("data: ")`: the line carries no frame. */
  predicate Skipped(line: string)
  {
    Trim(line) == [] || !StartsWith(line, DataPrefix)
  }

  /** `line.replace(/^data: /, "")`: exactly one leading `data: ` removed, if there is one. */
  function Payload(line: string): (r: string)
    ensures StartsWith(line, DataPrefix) ==> DataPrefix + r == line
    ensures !StartsWith(line, DataPrefix) ==> r == line
  {
    if StartsWith(line, DataPrefix) then line[|DataPrefix|..] else line
  }

  /** The text a parsed frame contributes: its content, or nothing. */
  function Content(p: Parsed): string
  {
    if p.Frame? && p.content.Some? then p.content.value else ""
  }

  /**
   * What one line appends to `fullResponse`. It depends on the prefix
   * alone: the blank test never decides a `data: ` line, and the parser
   * sees exactly what follows that one prefix.
   */
  function LineDelta(line: string, parse: Parser): (r: string)
    ensures !StartsWith(line, DataPrefix) ==> r == ""
    ensures forall p :: line == DataPrefix + p ==> r == Content(parse(p))
  {
    assert StartsWith(line, DataPrefix) ==> !Skipped(line) by {
      if StartsWith(line, DataPrefix) {
        DataLineNotBlank(line);
      }
    }
    assert forall p :: line == DataPrefix + p ==> line[|DataPrefix|..] == p;
    if Skipped(line) then "" else Content(parse(Payload(line)))
  }

  /** The texts `f` gives the items of `xs`, one after another. */
  function Each<X>(xs: seq<X>, f: X -> string): string
  {
    if xs == [] then "" else f(xs[0]) + Each(xs[1..], f)
  }

  /** The texts of `parts` one after another. */
  function Concat(parts: seq<string>): string
  {
    Each(parts, (p: string) => p)
  }

  /** `LineDelta` for a fixed parser, as a function of the line. */
  function PerLine(parse: Parser): string -> string
  {
    (line: string) => LineDelta(line, parse)
  }

  /** What one decoded chunk appends: its lines, split on "\n" within the chunk alone. */
  function ChunkDelta(chunk: string, parse: Parser): string
  {
    Each(Split(chunk, Newline), PerLine(parse))
  }

  /** `ChunkDelta` for a fixed parser, as a function of the chunk. */
  function PerChunk(parse: Parser): string -> string
  {
    (chunk: string) => ChunkDelta(chunk, parse)
  }

  /** What a stream of decoded chunks appends, chunk after chunk. */
  function StreamDelta(chunks: seq<string>, parse: Parser): string
  {
    Each(chunks, PerChunk(parse))
  }

  /** Every line of a stream, chunk after chunk, each chunk split on its own. */
  function Lines(chunks: seq<string>): seq<string>
  {
    if chunks == [] then [] else Split(chunks[0], Newline) + Lines(chunks[1..])
  }

  /** The non-empty texts `f` gives the items of `xs`, in order: for the lines of a stream, the deltas the server sent. */
  function Outputs<X>(xs: seq<X>, f: X -> string): (r: seq<string>)
    ensures forall k :: 0 <= k < |r| ==> r[k] != ""
  {
    if xs == [] then []
    else if f(xs[0]) == "" then Outputs(xs[1..], f)
    else [f(xs[0])] + Outputs(xs[1..], f)
  }

  /** Items are processed one after another: a run appends what its two halves append. */
  lemma {:induction false} EachAppend<X>(a: seq<X>, b: seq<X>, f: X -> string)
    ensures Each(a + b, f) == Each(a, f) + Each(b, f)
  {
    if a == [] {
      assert a + b == b;
    } else {
      EachAppend(a[1..], b, f);
      var x, r, t := f(a[0]), Each(a[1..], f), Each(b, f);
      calc {
        Each(a + b, f);
        { assert (a + b)[0] == a[0] && (a + b)[1..] == a[1..] + b; }
        x + Each(a[1..] + b, f);
        x + (r + t);
        { AppendAssoc(x, r, t); }
        (x + r) + t;
      }
    }
  }

  /**
   * Appending nothing leaves a text as it is. Stated apart so that the
   * read loops of `ChatClient` use it as one small fact; written inline
   * there, it made their proofs exceed the solver's resource limit.
   */
  lemma AppendNothing(x: string)
    ensures x + "" == x
  {
  }

  /**
   * Concatenation of texts is associative. Stated apart for the same
   * reason as `AppendNothing`.
   */
  lemma AppendAssoc(x: string, r: string, t: string)
    ensures x + (r + t) == (x + r) + t
  {
  }

  /** A run of one item appends what that item appends. */
  lemma EachOne<X>(x: X, f: X -> string)
    ensures Each([x], f) == f(x)
  {
    assert [x][1..] == [];
  }

  /** Extending a run by the next item appends what that item appends. */
  lemma EachSnoc<X>(xs: seq<X>, k: nat, f: X -> string)
    requires k < |xs|
    ensures Each(xs[..k + 1], f) == Each(xs[..k], f) + f(xs[k])
  {
    assert xs[..k + 1] == xs[..k] + [xs[k]];
    EachAppend(xs[..k], [xs[k]], f);
    EachOne(xs[k], f);
  }

  /** Reading one more line of a chunk appends what that line appends. */
  lemma LinesSnoc(before: string, lines: seq<string>, k: nat, parse: Parser)
    requires k < |lines|
    ensures before + Each(lines[..k + 1], PerLine(parse)) == before + Each(lines[..k], PerLine(parse)) + LineDelta(lines[k], parse)
  {
    EachSnoc(lines, k, PerLine(parse));
    AppendAssoc(before, Each(lines[..k], PerLine(parse)), LineDelta(lines[k], parse));
  }

  /** Reading every line of a chunk appends what the chunk appends. */
  lemma LinesAll(before: string, chunk: string, parse: Parser)
    ensures var lines := Split(chunk, Newline); before + Each(lines[..|lines|], PerLine(parse)) == before + ChunkDelta(chunk, parse)
  {
    var lines := Split(chunk, Newline);
    assert lines[..|lines|] == lines;
  }

  /** Reading one more chunk appends what that chunk appends. */
  lemma StreamDeltaSnoc(chunks: seq<string>, i: nat, parse: Parser)
    requires i < |chunks|
    ensures StreamDelta(chunks[..i + 1], parse) == StreamDelta(chunks[..i], parse) + ChunkDelta(chunks[i], parse)
  {
    EachSnoc(chunks, i, PerChunk(parse));
  }

  /** Skipping the items that give nothing and concatenating the rest gives the same text. */
  lemma {:induction false} EachOutputs<X>(xs: seq<X>, f: X -> string)
    ensures Each(xs, f) == Concat(Outputs(xs, f))
  {
    if xs != [] {
      EachOutputs(xs[1..], f);
      if f(xs[0]) != "" {
        var d := [f(xs[0])] + Outputs(xs[1..], f);
        assert d[0] == f(xs[0]) && d[1..] == Outputs(xs[1..], f);
      }
    }
  }

  /** Chunks are processed one after another: a stream appends what its two halves append. */
  lemma StreamDeltaAppend(a: seq<string>, b: seq<string>, parse: Parser)
    ensures StreamDelta(a + b, parse) == StreamDelta(a, parse) + StreamDelta(b, parse)
  {
    EachAppend(a, b, PerChunk(parse));
  }

  /** The stream appends what its lines, chunk after chunk, append. */
  lemma {:induction false} StreamDeltaLines(chunks: seq<string>, parse: Parser)
    ensures StreamDelta(chunks, parse) == Each(Lines(chunks), PerLine(parse))
  {
    if chunks != [] {
      StreamDeltaLines(chunks[1..], parse);
      EachAppend(Split(chunks[0], Newline), Lines(chunks[1..]), PerLine(parse));
    }
  }

  /** `fullResponse` is the in-order concatenation of every non-empty delta of every line of the stream. */
  lemma StreamDeltaConcat(chunks: seq<string>, parse: Parser)
    ensures StreamDelta(chunks, parse) == Concat(Outputs(Lines(chunks), PerLine(parse)))
  {
    StreamDeltaLines(chunks, parse);
    EachOutputs(Lines(chunks), PerLine(parse));
  }

  /** A blank line, or one that is not a `data: ` line, changes nothing; the lines around it still count. */
  lemma SkippedLineIgnored(before: seq<string>, line: string, after: seq<string>, parse: Parser)
    requires Trim(line) == [] || !StartsWith(line, DataPrefix)
    ensures Each(before + [line] + after, PerLine(parse)) == Each(before, PerLine(parse)) + Each(after, PerLine(parse))
  {
    LineIgnored(before, line, after, parse);
  }

  /** A frame the parser rejects, or one without content, drops only that line. */
  lemma MalformedLineIgnored(before: seq<string>, line: string, after: seq<string>, parse: Parser)
    requires parse(Payload(line)).Malformed? || parse(Payload(line)) == Frame(None)
    ensures Each(before + [line] + after, PerLine(parse)) == Each(before, PerLine(parse)) + Each(after, PerLine(parse))
  {
    LineIgnored(before, line, after, parse);
  }

  /** A line that appends nothing leaves the lines before and after it to count as they would alone. */
  lemma LineIgnored(before: seq<string>, line: string, after: seq<string>, parse: Parser)
    requires LineDelta(line, parse) == ""
    ensures Each(before + [line] + after, PerLine(parse)) == Each(before, PerLine(parse)) + Each(after, PerLine(parse))
  {
    EachAppend(before + [line], after, PerLine(parse));
    EachAppend(before, [line], PerLine(parse));
    EachOne(line, PerLine(parse));
  }

  /** A `data: ` line is never blank, so the blank-line test only matters for lines it skips anyway. */
  lemma DataLineNotBlank(line: string)
    requires StartsWith(line, DataPrefix)
    ensures Trim(line) != []
  {
    CharOfOccurrence(line, DataPrefix, 0, 0);
    TrimFrames(line);
    assert !IsWhitespace(line[0]);
  }

  /** Only one leading `data: ` is removed: `data: data: x` hands `data: x` to the parser. */
  lemma OnePrefixRemoved()
    ensures Payload("data: data: x") == "data: x"
  {
    var line := "data: data: x";
    assert line[..|DataPrefix|] == DataPrefix;
  }

  /**
   * Chunk boundaries matter. Take a frame, for instance
   * `{"choices":[{"delta":{"content":"x"}}]}`, that the parser reads as a
   * non-empty content `x`, and a parser that rejects the empty payload, as
   * `JSON.parse("")` does. A chunk boundary right after the prefix turns
   * the line into the two lines `data: ` and the bare frame, and its
   * content is lost, although both streams carry the same text.
   */
  lemma ChunkBoundaryMatters(parse: Parser, payload: string, x: string)
    requires parse(payload) == Frame(Some(x)) && x != "" && parse("") == Malformed
    requires Newline !in payload && !StartsWith(payload, DataPrefix)
    ensures Concat([DataPrefix + payload]) == Concat([DataPrefix, payload])
    ensures StreamDelta([DataPrefix + payload], parse) == x
    ensures StreamDelta([DataPrefix, payload], parse) == ""
  {
    WholeFrame(parse, payload, x);
    CutFrame(parse, payload);
    ConcatOne(DataPrefix + payload);
    ConcatTwo(DataPrefix, payload);
  }

  /** The uncut frame, a single one-line chunk, appends its content. */
  lemma WholeFrame(parse: Parser, payload: string, x: string)
    requires parse(payload) == Frame(Some(x)) && Newline !in payload
    ensures StreamDelta([DataPrefix + payload], parse) == x
  {
    var line := DataPrefix + payload;
    assert Newline !in DataPrefix;
    assert line[..|DataPrefix|] == DataPrefix && line[|DataPrefix|..] == payload;
    DataLineDelta(line, parse);
    OneLine(line, parse);
    EachOne(line, PerChunk(parse));
  }

  /** The cut frame: the chunk `data: ` gives an empty payload, and the bare frame is no `data: ` line. */
  lemma CutFrame(parse: Parser, payload: string)
    requires parse("") == Malformed
    requires Newline !in payload && !StartsWith(payload, DataPrefix)
    ensures StreamDelta([DataPrefix, payload], parse) == ""
  {
    assert Newline !in DataPrefix;
    assert DataPrefix[..|DataPrefix|] == DataPrefix && DataPrefix[|DataPrefix|..] == "";
    DataLineDelta(DataPrefix, parse);
    OneLine(DataPrefix, parse);
    OneLine(payload, parse);
    EachAppend([DataPrefix], [payload], PerChunk(parse));
    EachOne(DataPrefix, PerChunk(parse));
    EachOne(payload, PerChunk(parse));
    assert [DataPrefix] + [payload] == [DataPrefix, payload];
  }

  /** A chunk without a line break is a single line. */
  lemma OneLine(chunk: string, parse: Parser)
    requires Newline !in chunk
    ensures ChunkDelta(chunk, parse) == LineDelta(chunk, parse)
  {
    SplitNoSeparator(chunk, Newline);
    EachOne(chunk, PerLine(parse));
  }

  /** One part concatenates to itself. */
  lemma ConcatOne(a: string)
    ensures Concat([a]) == a
  {
    EachOne(a, (p: string) => p);
  }

  /** Two parts concatenate to one after the other. */
  lemma ConcatTwo(a: string, b: string)
    ensures Concat([a, b]) == a + b
  {
    EachAppend([a], [b], (p: string) => p);
    EachOne(a, (p: string) => p);
    EachOne(b, (p: string) => p);
    assert [a] + [b] == [a, b];
  }

  /** A `data: ` line appends the content the parser finds after the prefix. */
  lemma DataLineDelta(line: string, parse: Parser)
    requires StartsWith(line, DataPrefix)
    ensures LineDelta(line, parse) == Content(parse(line[|DataPrefix|..]))
  {
    DataLineNotBlank(line);
  }
}

/**
 * The `App` component of src/App.jsx as an object: its `prompt`, `typing`
 * and `messages` state, and the event handlers and the request routine
 * that update that state.
 *
 * React applies the updates of one turn in order, so the turn is one
 * sequential run here. The response of the server and the JSON parser are
 * inputs of the methods; `fetch` itself is not modelled.
 */
module ChatClient {
  import opened Wrappers
  import opened Text
  import opened ThinkTags
  import opened Frames
  import opened Chat
  import opened Api

  /**
   * The transcript after a turn that sends `text`: the user's message and
   * the placeholder are appended, then the placeholder shows the streamed
   * reply, or is dropped again when the request fails.
   */
  function AfterTurn(ms: seq<Message>, text: string, response: Response, parse: Parser): seq<Message>
  {
    var started := ms + [Message(text, User), Message("", Assistant)];
    if response.Streamed? then Shown(started, StreamDelta(response.body.chunks, parse))
    else DropLast(started)
  }

  /** A streamed turn grows the transcript by the user's message and the reply with its reasoning removed. */
  lemma AfterStreamedTurn(ms: seq<Message>, text: string, response: Response, parse: Parser)
    requires response.Streamed?
    ensures var r := AfterTurn(ms, text, response, parse);
      && |r| == |ms| + 2
      && r[..|ms|] == ms
      && r[|ms|] == Message(text, User)
      && r[|ms| + 1] == Message(RemoveThinkTags(StreamDelta(response.body.chunks, parse)), Assistant)
  {
    var started := ms + [Message(text, User), Message("", Assistant)];
    var full := StreamDelta(response.body.chunks, parse);
    ShownLast(started, full);
    var r := Shown(started, full);
    assert r[..|ms| + 1] == started[..|ms| + 1] == ms + [Message(text, User)];
    assert r[..|ms|] == r[..|ms| + 1][..|ms|];
  }

  /** A failed turn keeps only the user's message: the transcript grows by one. */
  lemma AfterFailedTurn(ms: seq<Message>, text: string, response: Response, parse: Parser)
    requires !response.Streamed?
    ensures AfterTurn(ms, text, response, parse) == ms + [Message(text, User)]
  {
    assert ms + [Message(text, User), Message("", Assistant)] == (ms + [Message(text, User)]) + [Message("", Assistant)];
    DropLastAppend(ms + [Message(text, User)], Message("", Assistant));
  }

  /**
   * The transcript depends only on the concatenated deltas: streams that cut
   * the same reply into different deltas, or end with or without a read
   * error, leave the same transcript.
   */
  lemma SameRepliesSameTranscript(ms: seq<Message>, text: string, a: Stream, b: Stream, parse: Parser)
    requires Concat(Outputs(Lines(a.chunks), PerLine(parse))) == Concat(Outputs(Lines(b.chunks), PerLine(parse)))
    ensures AfterTurn(ms, text, Streamed(a), parse) == AfterTurn(ms, text, Streamed(b), parse)
  {
    StreamDeltaConcat(a.chunks, parse);
    StreamDeltaConcat(b.chunks, parse);
  }

  /** The state of the `App` component. */
  class App {
    /** The text in the input box. */
    var prompt: string
    /** Whether the typing indicator shows. */
    var typing: bool
    /** The transcript. */
    var messages: seq<Message>

    /** The first render: an empty prompt and the greeting. */
    constructor ()
      ensures prompt == "" && !typing && messages == [Greeting]
    {
      prompt := "";
      typing := false;
      messages := [Greeting];
    }

    /** `composePrompt`: the input box now holds `value`. */
    method ComposePrompt(value: string)
      modifies this
      ensures prompt == value && typing == old(typing) && messages == old(messages)
    {
      prompt := value;
    }

    /**
     * The read loop of `fetchApi`: every line of every chunk in turn, each
     * non-empty delta appended to `fullResponse` and shown, with its
     * reasoning removed, in place of the last message. A read error ends
     * the loop like the end of the stream does, and is not reported.
     */
    method ReadStream(stream: Stream, parse: Parser) returns (fullResponse: string, botMessage: string)
      modifies this
      ensures fullResponse == StreamDelta(stream.chunks, parse)
      ensures botMessage == RemoveThinkTags(fullResponse)
      ensures messages == Shown(old(messages), fullResponse)
      ensures prompt == old(prompt) && typing == old(typing)
    {
      fullResponse := "";
      botMessage := "";
      RemoveThinkTagsEmpty();
      // Each round is one `reader.read()` that is not yet `done`; the round
      // after the last chunk reports `done`, or throws into the silent `catch`.
      for i := 0 to |stream.chunks|
        invariant fullResponse == StreamDelta(stream.chunks[..i], parse)
        invariant botMessage == RemoveThinkTags(fullResponse)
        invariant messages == Shown(old(messages), fullResponse)
        invariant prompt == old(prompt) && typing == old(typing)
      {
        StreamDeltaSnoc(stream.chunks, i, parse);
        fullResponse, botMessage := ReadChunk(stream.chunks[i], parse, fullResponse, botMessage, old(messages));
      }
      assert stream.chunks[..|stream.chunks|] == stream.chunks;
    }

    /** One chunk of the stream: `chunk.split("\n")`, each line read in turn. */
    method ReadChunk(chunk: string, parse: Parser, fullResponse: string, botMessage: string, ghost start: seq<Message>)
      returns (fullResponse': string, botMessage': string)
      requires botMessage == RemoveThinkTags(fullResponse) && messages == Shown(start, fullResponse)
      modifies this
      ensures fullResponse' == fullResponse + ChunkDelta(chunk, parse)
      ensures botMessage' == RemoveThinkTags(fullResponse')
      ensures messages == Shown(start, fullResponse')
      ensures prompt == old(prompt) && typing == old(typing)
    {
      var lines := Split(chunk, Newline);
      fullResponse', botMessage' := fullResponse, botMessage;
      AppendNothing(fullResponse);
      for k := 0 to |lines|
        invariant fullResponse' == fullResponse + Each(lines[..k], PerLine(parse))
        invariant botMessage' == RemoveThinkTags(fullResponse')
        invariant messages == Shown(start, fullResponse')
        invariant prompt == old(prompt) && typing == old(typing)
      {
        LinesSnoc(fullResponse, lines, k, parse);
        fullResponse', botMessage' := ReadLine(lines[k], parse, fullResponse', botMessage', start);
      }
      LinesAll(fullResponse, chunk, parse);
    }

    /**
     * The body of the loop over the lines of a chunk: a `data: ` line whose
     * frame carries a non-empty content appends it to `fullResponse` and
     * shows the reply so far in place of the last message; any other line
     * changes nothing.
     */
    method ReadLine(line: string, parse: Parser, fullResponse: string, botMessage: string, ghost start: seq<Message>)
      returns (fullResponse': string, botMessage': string)
      requires botMessage == RemoveThinkTags(fullResponse) && messages == Shown(start, fullResponse)
      modifies this
      ensures fullResponse' == fullResponse + LineDelta(line, parse)
      ensures botMessage' == RemoveThinkTags(fullResponse')
      ensures messages == Shown(start, fullResponse')
      ensures prompt == old(prompt) && typing == old(typing)
    {
      fullResponse', botMessage' := fullResponse, botMessage;
      if Skipped(line) {
        AppendNothing(fullResponse);
        return;
      }
      var json := parse(Payload(line));
      if json.Frame? && json.content.Some? && json.content.value != "" {
        ShownExtend(start, fullResponse, json.content.value);
        fullResponse' := fullResponse + json.content.value;
        botMessage' := RemoveThinkTags(fullResponse');
        messages := ReplaceLast(messages, Message(botMessage', Assistant));
      } else {
        AppendNothing(fullResponse);
      }
    }

    /**
     * `fetchApi(userMessage)`: sends the transcript `history` of the render
     * that started the turn, then either raises the failure of the response
     * or reads the stream and hides the typing indicator.
     */
    method FetchApi(history: seq<Message>, user: ApiMessage, response: Response, parse: Parser) returns (request: Request, failure: Option<string>)
      modifies this
      ensures request == BuildRequest(history, user)
      ensures response.Streamed? ==>
        failure == None && !typing && messages == Shown(old(messages), StreamDelta(response.body.chunks, parse))
      ensures !response.Streamed? ==>
        failure == Some(FailureReason(response)) && typing == old(typing) && messages == old(messages)
      ensures prompt == old(prompt)
    {
      request := BuildRequest(history, user);
      if !response.Streamed? {
        failure := Some(FailureReason(response));
        return;
      }
      var fullResponse, botMessage := ReadStream(response.body, parse);
      typing := false;
      failure := None;
    }

    /**
     * `queryPrompt`: a blank prompt does nothing. Otherwise the trimmed
     * prompt and an empty placeholder are appended, the prompt is cleared
     * and the request is sent; a failure drops the placeholder and is
     * alerted, and leaves the typing indicator on.
     */
    method QueryPrompt(response: Response, parse: Parser) returns (sent: Option<Request>, alert: Option<string>)
      modifies this
      ensures Trim(old(prompt)) == [] ==>
        sent == None && alert == None && prompt == old(prompt) && typing == old(typing) && messages == old(messages)
      ensures Trim(old(prompt)) != [] ==>
        && sent == Some(BuildRequest(old(messages), ApiMessage(RoleName(User), Trim(old(prompt)))))
        && messages == AfterTurn(old(messages), Trim(old(prompt)), response, parse)
        && prompt == ""
        && typing == !response.Streamed?
        && alert == (if response.Streamed? then None else Some("Error: " + FailureReason(response)))
    {
      if Trim(prompt) == [] {
        return None, None;
      }
      typing := true;
      var userPrompt := Trim(prompt);
      // `fetchApi` closes over the transcript of the render that started the turn.
      var history := messages;
      messages := messages + [Message(userPrompt, User)];
      messages := messages + [Message("", Assistant)];
      assert messages == history + [Message(userPrompt, User), Message("", Assistant)];
      var userMessage := ApiMessage(RoleName(User), userPrompt);
      prompt := "";
      var request, failure := FetchApi(history, userMessage, response, parse);
      sent := Some(request);
      alert := None;
      if failure.Some? {
        messages := DropLast(messages);
        alert := Some("Error: " + failure.value);
      }
      assert messages == AfterTurn(history, userPrompt, response, parse);
    }
  }
}

/**
 * The chat-completions request that `fetchApi` (src/App.jsx) sends, and the
 * outcomes of sending it. The HTTP exchange itself is not modelled: the
 * response the server gives is an input of the model.
 */
module Api {
  import opened Wrappers
  import opened Chat

  /** One message of the request body: `{ role, content }`, the role by its name. */
  datatype ApiMessage = ApiMessage(role: string, content: string)

  /** The request body (`reqBody`); the sampling settings `temperature` and `top_p` are not modelled. */
  datatype Request = Request(model: string, messages: seq<ApiMessage>, maxCompletionTokens: nat, stream: bool)

  /** The model the app asks for. */
  const ModelName: string := "deepseek-r1-distill-llama-70b"

  /** The cap on the length of the completion. */
  const MaxCompletionTokens: nat := 4096

  /** `systemMessage`, sent ahead of the transcript. */
  const SystemMessage: ApiMessage := ApiMessage(RoleName(System), "You are a helpful assistant.")

  /** `messages.map(msg => ({ role: msg.sender, content: msg.message }))`. */
  function ChatHistory(ms: seq<Message>): (r: seq<ApiMessage>)
    ensures |r| == |ms|
    ensures forall k :: 0 <= k < |ms| ==> r[k] == ApiMessage(RoleName(ms[k].sender), ms[k].message)
  {
    if ms == [] then [] else [ApiMessage(RoleName(ms[0].sender), ms[0].message)] + ChatHistory(ms[1..])
  }

  /** `reqBody` for the transcript `history` followed by the new `user` message. */
  function BuildRequest(history: seq<Message>, user: ApiMessage): (r: Request)
    ensures r.model == ModelName && r.maxCompletionTokens == MaxCompletionTokens && r.stream
    ensures |r.messages| == |history| + 2
    ensures r.messages[0] == SystemMessage && r.messages[|history| + 1] == user
    ensures forall k :: 0 <= k < |history| ==> r.messages[k + 1] == ApiMessage(RoleName(history[k].sender), history[k].message)
  {
    Request(ModelName, [SystemMessage] + ChatHistory(history) + [user], MaxCompletionTokens, true)
  }

  /** A streamed body: the decoded chunks that `reader.read()` delivers, possibly ended by a read error. */
  datatype Stream = Stream(chunks: seq<string>, readError: bool)

  /** What `fetch` gives back. */
  datatype Response =
    | NetworkError(reason: string)             // `fetch` itself rejects
    | HttpError(errorMessage: Option<string>)  // `!response.ok`; the `message` field of the JSON error body
    | Streamed(body: Stream)                   // `response.ok`

  /** `errorData.message || "API request failed"`. */
  const DefaultFailure: string := "API request failed"

  /** The `message` of the error a failed response raises. */
  function FailureReason(r: Response): (reason: string)
    requires !r.Streamed?
    ensures r.HttpError? ==> reason != ""
    ensures r.HttpError? ==> reason == DefaultFailure || r.errorMessage == Some(reason)
  {
    match r
    case NetworkError(reason) => reason
    case HttpError(m) => if m.Some? && m.value != "" then m.value else DefaultFailure
  }
}

/**
 * The chat transcript that `App` (src/App.jsx) keeps in its `messages`
 * state, and the list updates it applies to it: append, replace the last
 * message, drop the last message.
 */
module Chat {
  import opened ThinkTags

  /** Who wrote a message; the API's `role` field takes the same names. */
  datatype Role = System | User | Assistant

  /** The name the request body carries for a role. */
  function RoleName(r: Role): (name: string)
    ensures (name == "system") == r.System? && (name == "user") == r.User? && (name == "assistant") == r.Assistant?
  {
    match r
    case System => "system"
    case User => "user"
    case Assistant => "assistant"
  }

  /** One entry of the transcript: `{ message, sender }`. */
  datatype Message = Message(message: string, sender: Role)

  /** The transcript a fresh `App` starts with. */
  const Greeting: Message := Message("Hello, I'm your AI assistant! Ask me anything.", Assistant)

  /** `[...prev.slice(0, -1), m]`: the list with its last message replaced by `m` (or just `[m]` when empty). */
  function ReplaceLast(ms: seq<Message>, m: Message): (r: seq<Message>)
    ensures |r| == if ms == [] then 1 else |ms|
    ensures forall k :: 0 <= k < |r| - 1 ==> r[k] == ms[k]
    ensures r[|r| - 1] == m
  {
    if ms == [] then [m] else ms[..|ms| - 1] + [m]
  }

  /** `prev.slice(0, -1)`: the list without its last message (still empty when empty). */
  function DropLast(ms: seq<Message>): (r: seq<Message>)
    ensures ms == [] ==> r == []
    ensures ms != [] ==> r + [ms[|ms| - 1]] == ms
  {
    if ms == [] then [] else ms[..|ms| - 1]
  }

  /** Dropping the message just appended gives the list back. */
  lemma DropLastAppend(ms: seq<Message>, m: Message)
    ensures DropLast(ms + [m]) == ms
  {
    assert (ms + [m])[..|ms|] == ms;
  }

  /** A second replacement of the last message overrides the first. */
  lemma ReplaceLastTwice(ms: seq<Message>, a: Message, b: Message)
    ensures ReplaceLast(ReplaceLast(ms, a), b) == ReplaceLast(ms, b)
  {
    if ms != [] {
      assert (ms[..|ms| - 1] + [a])[..|ms| - 1] == ms[..|ms| - 1];
    }
  }

  /**
   * The transcript once the stream has produced `full` (`fullResponse`): as
   * it was while nothing has arrived, and otherwise with its last message
   * replaced by the assistant's reply with the reasoning removed.
   */
  function Shown(ms: seq<Message>, full: string): seq<Message>
  {
    if full == [] then ms else ReplaceLast(ms, Message(RemoveThinkTags(full), Assistant))
  }

  /** Whether or not anything has arrived yet, the last message shows `removeThinkTags(full)`. */
  lemma ShownLast(ms: seq<Message>, full: string)
    requires ms != [] && ms[|ms| - 1] == Message("", Assistant)
    ensures |Shown(ms, full)| == |ms|
    ensures Shown(ms, full)[..|ms| - 1] == ms[..|ms| - 1]
    ensures Shown(ms, full)[|ms| - 1] == Message(RemoveThinkTags(full), Assistant)
  {
    if full == [] {
      RemoveThinkTagsEmpty();
    } else {
      var r := Shown(ms, full);
      assert r[..|ms| - 1] == ms[..|ms| - 1];
    }
  }

  /** A non-empty delta moves the shown transcript from `full` to `full + delta`. */
  lemma ShownExtend(ms: seq<Message>, full: string, delta: string)
    requires delta != []
    ensures ReplaceLast(Shown(ms, full), Message(RemoveThinkTags(full + delta), Assistant)) == Shown(ms, full + delta)
  {
    if full != [] {
      ReplaceLastTwice(ms, Message(RemoveThinkTags(full), Assistant), Message(RemoveThinkTags(full + delta), Assistant));
    }
  }
}

/** The context renderer of `QAService._prepare_context`: one line per
    message, `[<timestamp>] <user_name>: <message>`, joined by newlines. */
module Context {
  import opened Wrappers
  import opened Sequences
  import opened Text
  import opened Messages

  /** The default number of messages rendered. */
  const DefaultMaxMessages := 1000

  /** The displayed fields, with the defaults used for absent keys. */
  function NameOf(m: Message): (r: string) { m.userName.GetOr("Unknown") }
  function TextOf(m: Message): (r: string) { m.text.GetOr("") }
  function TimestampOf(m: Message): (r: string) { m.timestamp.GetOr("") }

  /** One message as a context line. */
  function RenderLine(m: Message): (line: string)
  {
    "[" + TimestampOf(m) + "] " + NameOf(m) + ": " + TextOf(m)
  }

  /** The rendered lines of the messages, in order. */
  function Lines(messages: seq<Message>): (r: seq<string>)
    ensures |r| == |messages|
  {
    seq(|messages|, i requires 0 <= i < |messages| => RenderLine(messages[i]))
  }

  /** `_prepare_context(messages, max_messages)`: the lines of
      `messages[:max_messages]` joined by `"\n"`. The result is empty
      exactly when no message is rendered. */
  function PrepareContext(messages: seq<Message>, maxMessages: int := DefaultMaxMessages): (r: string)
    ensures r == "" <==> SliceLength(|messages|, maxMessages) == 0
  {
    var lines := Lines(Take(messages, maxMessages));
    if |lines| > 0 then
      JoinStartsWith(lines, "\n");
      assert lines[0][0] == '[';
      Join(lines, "\n")
    else Join(lines, "\n")
  }

  /** Each rendered line followed by a newline is the context followed by a
      newline: lines are separated, never terminated, by `"\n"`. */
  lemma ContextIsSeparatedLines(messages: seq<Message>, maxMessages: int)
    requires SliceLength(|messages|, maxMessages) > 0
    ensures PrepareContext(messages, maxMessages) + "\n" == Terminated(Lines(Take(messages, maxMessages)), "\n")
  {
    JoinTerminated(Lines(Take(messages, maxMessages)), "\n");
  }

  /** No displayed field of the message holds a newline. */
  predicate SingleLine(m: Message)
  {
    '\n' !in TimestampOf(m) && '\n' !in NameOf(m) && '\n' !in TextOf(m)
  }

  /** When no field holds a newline, splitting the context on `"\n"` gives
      back exactly min(|messages|, max_messages) lines, line i being the
      i-th message rendered as `[<timestamp>] <user_name>: <message>`. */
  lemma ContextLines(messages: seq<Message>, maxMessages: int)
    requires SliceLength(|messages|, maxMessages) > 0
    requires forall i :: 0 <= i < SliceLength(|messages|, maxMessages) ==> SingleLine(messages[i])
    ensures var lines := SplitOn(PrepareContext(messages, maxMessages), '\n');
            && |lines| == SliceLength(|messages|, maxMessages)
            && forall i :: 0 <= i < |lines| ==>
                 lines[i] == "[" + TimestampOf(messages[i]) + "] " + NameOf(messages[i]) + ": " + TextOf(messages[i])
  {
    var lines := Lines(Take(messages, maxMessages));
    forall j | 0 <= j < |lines|
      ensures '\n' !in lines[j]
    {
      assert SingleLine(messages[j]);
      assert lines[j] == "[" + TimestampOf(messages[j]) + "] " + NameOf(messages[j]) + ": " + TextOf(messages[j]);
    }
    assert "\n" == ['\n'];
    SplitOnJoin(lines, '\n');
  }

  /** Reads a context line back into timestamp, name and text: the text
      between the leading `[` and the first `]`, then after `"] "` up to the
      first `:`, then everything after `": "`. */
  function ParseLine(line: string): (r: Option<(string, string, string)>)
  {
    if |line| == 0 || line[0] != '[' then None
    else
      var body := line[1..];
      var j := IndexOf(body, ']');
      if j + 1 >= |body| || body[j + 1] != ' ' then None
      else
        var rest := body[j + 2..];
        var k := IndexOf(rest, ':');
        if k + 1 >= |rest| || rest[k + 1] != ' ' then None
        else Some((body[..j], rest[..k], rest[k + 2..]))
  }

  /** The line format loses nothing: a message whose timestamp holds no `]`
      and whose name holds no `:` is recovered from its line, defaults
      included (an absent timestamp reads back as `""`, an absent name as
      `"Unknown"`). */
  lemma ParseRenderLine(m: Message)
    requires ']' !in TimestampOf(m) && ':' !in NameOf(m)
    ensures ParseLine(RenderLine(m)) == Some((TimestampOf(m), NameOf(m), TextOf(m)))
  {
    var ts, name, text := TimestampOf(m), NameOf(m), TextOf(m);
    var line := RenderLine(m);
    var body := line[1..];
    assert body == ts + ("] " + name + ": " + text);
    NoSeparatorIndex(ts, ']', "] " + name + ": " + text);
    var rest := body[|ts| + 2..];
    assert rest == name + (": " + text);
    NoSeparatorIndex(name, ':', ": " + text);
    assert rest[|name| + 2..] == text;
  }
}

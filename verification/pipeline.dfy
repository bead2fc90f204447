/** The deterministic part of `QAService.answer_question`: filter the
    fetched messages for the question, then render the result as context.
    The fetch and the language-model call around it are not modelled. */
module Pipeline {
  import opened Sequences
  import opened Text
  import opened Messages
  import opened Relevance
  import opened Context

  /** The context block handed to the language model for a question. */
  function ContextFor(messages: seq<Message>, question: string): (r: string)
    ensures r == Join(Lines(FilterRelevant(messages, question)), "\n")
    ensures r == "" <==> |FilterRelevant(messages, question)| == 0
  {
    var relevant := FilterRelevant(messages, question);
    TakeAll(relevant, DefaultMaxMessages);
    PrepareContext(relevant)
  }

  /** The default cap of 1000 never truncates the filter's output, whose
      length is at most 300. */
  lemma DefaultCapNeverTruncates(messages: seq<Message>, question: string)
    ensures Take(FilterRelevant(messages, question), DefaultMaxMessages) == FilterRelevant(messages, question)
  {
    TakeAll(FilterRelevant(messages, question), DefaultMaxMessages);
  }

  /** A question with no keyword (empty, blank, or only stop words and short
      words) always gets the first 200 messages. */
  lemma NoKeywordFallback(messages: seq<Message>, question: string)
    requires forall t :: t in Split(Lower(question)) ==> !IsKeyword(t)
    ensures FilterRelevant(messages, question) == messages[..Min(FallbackCap, |messages|)]
  {
    var keywords := Keywords(question);
    assert forall j :: 0 <= j < |keywords| ==> keywords[j] in keywords;
  }

  /** An empty question takes the fallback path. */
  lemma EmptyQuestionFallback(messages: seq<Message>)
    ensures FilterRelevant(messages, "") == messages[..Min(FallbackCap, |messages|)]
  {
    assert Split(Lower("")) == [];
    NoKeywordFallback(messages, "");
  }
}

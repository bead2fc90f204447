# Member QA service: relevance filter and context renderer

This project models, in Dafny, the deterministic core of the member
question-answering service: `QAService._filter_relevant_messages` and
`QAService._prepare_context` in `app/services/qa_service.py`.

- **Keyword extraction.** The question is lower-cased and split on runs of
  whitespace, as Python's `str.split()` does. Tokens longer than two
  characters that are not stop words become keywords. Order and duplicates
  are kept, and punctuation is not stripped.
- **Relevance filter.** When there are keywords, a message is relevant if
  some keyword is a substring of its lower-cased `user_name` or `message`.
  An absent key counts as `""`. The first 300 relevant messages are
  returned, in collection order. When there is no keyword, or no message is
  relevant, the first 200 messages are returned.
- **Context rendering.** The first `max_messages` messages (default 1000)
  are rendered as `[<timestamp>] <user_name>: <message>` and joined by
  newlines. An absent `user_name` renders as `Unknown`, and an absent
  `message` or `timestamp` as the empty string.

A message is a record of three `Option<string>` fields. `None` means the
dictionary has no such key, because `dict.get` applies its default only
then. All operations are pure functions over `seq<char>` and
`seq<Message>`. The match-collecting loop is also written as a method with
the source's nested loop and `break`, and is proved equal to the functional
definition.

Modules, one per file:

- `Wrappers` (`wrappers.dfy`): `Option`.
- `Sequences` (`sequences.dfy`): Python prefix slicing (`Take`),
  order-preserving filtering (`Filter`, `Positions`) and the `Embeds`
  predicate. `Embeds` says one sequence is an order-preserving subsequence of
  another at given strictly increasing positions.
- `Text` (`text.dfy`): ASCII `lower()`, the substring test, `str.split()`,
  `str.join` and `str.split(c)`.
- `Messages` (`messages.dfy`): the message record.
- `Relevance` (`relevance.dfy`): keyword extraction and the filter.
- `Context` (`context.dfy`): line rendering and context assembly.
- `Pipeline` (`pipeline.dfy`): filtering followed by rendering, as
  `answer_question` chains them.
- `Scenario` (`scenario.dfy`): the worked two-message example.

`str.split()` does not strip punctuation, so the keywords of "When is
Layla planning her trip to London?" are `"layla"` and `"london?"`. In the
worked example the first message matches through `"layla"` in its user
name.

## Model

| member | source | states |
|---|---|---|
| Sequences.Take | app/services/qa_service.py:106 | `xs[:k]` is a prefix of `xs` whose length follows Python's slice rules, including the count-from-the-end rule for a negative bound |
| Sequences.Filter | app/services/qa_service.py:85 | a filtered list holds only input elements that satisfy the predicate, and every input element that satisfies it is kept |
| Sequences.Positions | app/services/qa_service.py:91-100 | the positions of the elements that satisfy a predicate are in range, strictly increasing, each satisfies the predicate, and none is missing |
| Sequences.FilterEmbeds | app/services/qa_service.py:91-100 | the filtered list is exactly the input elements at those positions, in order, each input position used at most once |
| Text.Contains | app/services/qa_service.py:98 | `keyword in text` holds exactly when the keyword occurs at some offset of the text |
| Text.MissingCharNotSubstring | app/services/qa_service.py:98 | a keyword that holds a character the text lacks is not a substring of it |
| Text.Split | app/services/qa_service.py:84 | every token of `str.split()` is non-empty and holds no whitespace |
| Text.SplitWeave | app/services/qa_service.py:84 | splitting recovers the words of any layout: words separated by non-empty whitespace gaps, each gap chosen independently, with any whitespace before and after, split back into exactly those words |
| Text.SplitDecomposes | app/services/qa_service.py:84 | conversely, every string is its tokens separated by non-empty whitespace gaps, with whitespace before and after, so the tokens are exactly the maximal non-whitespace runs |
| Text.SplitSkipsSpace | app/services/qa_service.py:84 | leading whitespace does not change the tokens |
| Text.SplitLower | app/services/qa_service.py:80-84 | the tokens of the lower-cased question are the lower-cased tokens of the question, so lower-casing never moves a token boundary |
| Text.JoinTerminated | app/services/qa_service.py:131 | `sep.join(parts)` followed by `sep` is each part followed by `sep`, so the separator never ends a non-empty join |
| Text.SplitOnJoin | app/services/qa_service.py:131 | splitting on `c` undoes joining with `c` when no part holds `c` |
| Relevance.Keywords | app/services/qa_service.py:80-85 | every keyword has at least three characters, is not a stop word and holds no whitespace |
| Relevance.KeywordsAreKeywordTokens | app/services/qa_service.py:80-85 | the keyword list is exactly the in-order subsequence of the lower-cased question's tokens that are longer than two characters and not stop words, with duplicates kept |
| Relevance.MatchListMembership | app/services/qa_service.py:91-100 | a message is in the match list if and only if it is in the input and some keyword is a substring of its lower-cased user name or text, where an absent key counts as `""` |
| Relevance.CollectRelevant | app/services/qa_service.py:91-100 | the nested loop, which appends a message at its first matching keyword and then breaks, builds exactly the match list |
| Relevance.FilterRelevant | app/services/qa_service.py:69-110 | the result never exceeds 300 and holds only input messages. On the keyword path it is non-empty and every element mentions a keyword. Otherwise it is the first min(200, \|messages\|) messages |
| Relevance.MatchPathIsFirstMatches | app/services/qa_service.py:103-106 | on the keyword path the result is the first min(300, #matches) matches: at strictly increasing input positions, and including every match when fewer than 300 are returned |
| Relevance.ResultIsSubsequence | app/services/qa_service.py:103-110 | on both paths the result is an order-preserving subsequence of the input that uses each input position at most once |
| Context.PrepareContext | app/services/qa_service.py:112-131 | the context is empty exactly when `messages[:max_messages]` is empty |
| Context.ContextIsSeparatedLines | app/services/qa_service.py:124-131 | the context followed by a newline is every rendered line followed by a newline, so lines are separated and there is no trailing newline |
| Context.ContextLines | app/services/qa_service.py:124-131 | when at least one message is rendered and no rendered field holds a newline, the context splits into exactly as many lines as `messages[:max_messages]` keeps, line i being `"[" + ts + "] " + name + ": " + msg` of the i-th message with the absent-key defaults |
| Context.ParseRenderLine | app/services/qa_service.py:125-129 | a rendered line can be read back into its timestamp, name and text, with the defaults `""`, `"Unknown"` and `""`, when the timestamp holds no `]` and the name no `:` |
| Pipeline.ContextFor | app/services/qa_service.py:32-36 | the context for a question is the newline-join of all the filtered messages' lines, uncut, and is empty exactly when the filter returns nothing |
| Pipeline.DefaultCapNeverTruncates | app/services/qa_service.py:112-125 | the default cap of 1000 keeps the whole filter output, which never exceeds 300 |
| Pipeline.NoKeywordFallback | app/services/qa_service.py:89-110 | a question none of whose tokens is a keyword always gets the first min(200, \|messages\|) messages |
| Pipeline.EmptyQuestionFallback | app/services/qa_service.py:84-110 | the empty question gets the first min(200, \|messages\|) messages |
| Scenario.QuestionKeywordsAre | app/services/qa_service.py:80-85 | "When is Layla planning her trip to London?" yields the keywords `["layla", "london?"]` |
| Scenario.LaylaScenario | app/services/qa_service.py:69-131 | for the two-message example only the Layla message is relevant, and the context is `[2025-03-01] Layla Kawaguchi: Booking my London trip for March 15` |

## Left out

- `answer_question` (app/services/qa_service.py:17-67): the message fetch, the language-model chat completion, the prompt text and the `.strip()` of the reply. These are network I/O and a call to an opaque model. `Pipeline.ContextFor` models only the filter-then-render step between the fetch and the call.
- `services/data_service.py`: the HTTP fetch, its error handling and the one-slot cache. The cache is inseparable from the network call it wraps.
- `app/main.py` and `app/models.py`: web routing, HTML serving, error-to-HTTP mapping and request/response schemas.
- Logging calls, settings and configuration loading, and the race on the shared cache between concurrent requests.
- Text.Lower: models `str.lower()` on ASCII letters only. Python's full Unicode case mapping, which can change a string's length, is not modelled.
- Text.IsSpace: fixes the set of characters Python's `str.split()` treats as whitespace. It does not derive that set from the Unicode database.
- Text.Contains: models the result of Python's `in`, not the search algorithm CPython uses.
- Messages.Message: fields hold strings or are absent. A key present with a non-string value (JSON `null`, a number) is not modelled. With such a value the source would raise in `.lower()` on the filter path, or render the value's `str()` in the context.
- Relevance.FilterRelevant: works on message values, not on dictionary object identity. Two equal dictionaries are indistinguishable in the model, as they are in the rendered context.
- Context.ContextLines: requires that no displayed field of a rendered message holds a newline, because a field containing one spreads over several lines of the context. For all messages, `Context.ContextIsSeparatedLines` states the layout without that restriction.

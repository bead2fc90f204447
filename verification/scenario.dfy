/** The worked example of the service: the question
    "When is Layla planning her trip to London?" over a two-message
    collection. The keywords are "layla" and "london?" (the question mark
    stays on the token), only the first message matches, and the context is
    that message's single line. */
module Scenario {
  import opened Wrappers
  import opened Sequences
  import opened Text
  import opened Messages
  import opened Relevance
  import opened Context
  import opened Pipeline

  const Question := "When is Layla planning her trip to London?"
  const LoweredQuestion := "when is layla planning her trip to london?"
  const QuestionTokens := ["when", "is", "layla", "planning", "her", "trip", "to", "london?"]
  const QuestionKeywords := ["layla", "london?"]

  const Booking := Message(Some("Layla Kawaguchi"), Some("Booking my London trip for March 15"), Some("2025-03-01"))
  const Paris := Message(Some("Sam"), Some("Going to Paris"), Some("2025-03-02"))
  const BookingLine := "[2025-03-01] Layla Kawaguchi: Booking my London trip for March 15"

  lemma LowerQuestion()
    ensures Lower(Question) == LoweredQuestion
  {
  }

  lemma TokensAreWords()
    ensures forall j :: 0 <= j < |QuestionTokens| ==> IsWord(QuestionTokens[j])
  {
    assert IsWord("when") && IsWord("is") && IsWord("layla") && IsWord("planning");
    assert IsWord("her") && IsWord("trip") && IsWord("to") && IsWord("london?");
  }

  lemma TokensJoin()
    ensures Join(QuestionTokens, " ") == LoweredQuestion
  {
  }

  /** The lower-cased question splits into its eight words. */
  lemma SplitQuestion(s: string)
    requires s == LoweredQuestion
    ensures Split(s) == QuestionTokens
  {
    TokensAreWords();
    TokensJoin();
    var gaps := seq(|QuestionTokens| - 1, _ => " ");
    WeaveUniform(QuestionTokens, " ");
    assert forall j :: 0 <= j < |gaps| ==> |gaps[j]| > 0 && AllSpace(gaps[j]);
    SplitWeave(QuestionTokens, gaps, "", "");
    assert "" + s + "" == s;
  }

  lemma KeywordFlags()
    ensures !IsKeyword("when") && !IsKeyword("is") && IsKeyword("layla") && !IsKeyword("planning")
    ensures !IsKeyword("her") && !IsKeyword("trip") && !IsKeyword("to") && IsKeyword("london?")
  {
  }

  /** Filtering eight tokens of which only the third and the last are
      keywords keeps those two. Stated over an arbitrary sequence rather
      than the question's literal tokens so that the solver unfolds
      `Filter` one prefix at a time instead of evaluating the literals. */
  lemma KeywordPattern(ts: seq<string>)
    requires |ts| == 8
    requires !IsKeyword(ts[0]) && !IsKeyword(ts[1]) && IsKeyword(ts[2]) && !IsKeyword(ts[3])
    requires !IsKeyword(ts[4]) && !IsKeyword(ts[5]) && !IsKeyword(ts[6]) && IsKeyword(ts[7])
    ensures Filter(ts, IsKeyword) == [ts[2], ts[7]]
  {
    assert ts[..1][..0] == [];
    assert Filter(ts[..1], IsKeyword) == [];
    assert ts[..2][..1] == ts[..1];
    assert Filter(ts[..2], IsKeyword) == [];
    assert ts[..3][..2] == ts[..2];
    assert Filter(ts[..3], IsKeyword) == [ts[2]];
    assert ts[..4][..3] == ts[..3];
    assert Filter(ts[..4], IsKeyword) == [ts[2]];
    assert ts[..5][..4] == ts[..4];
    assert Filter(ts[..5], IsKeyword) == [ts[2]];
    assert ts[..6][..5] == ts[..5];
    assert Filter(ts[..6], IsKeyword) == [ts[2]];
    assert ts[..7][..6] == ts[..6];
    assert Filter(ts[..7], IsKeyword) == [ts[2]];
    assert ts[..7] == ts[..|ts| - 1];
  }

  /** The question's keywords are "layla" and "london?". */
  lemma TokenKeywords(ts: seq<string>)
    requires ts == QuestionTokens
    ensures Filter(ts, IsKeyword) == QuestionKeywords
  {
    KeywordFlags();
    KeywordPattern(ts);
  }

  lemma QuestionKeywordsAre(question: string)
    requires question == Question
    ensures Keywords(question) == QuestionKeywords
  {
    var lowered := Lower(question);
    LowerQuestion();
    SplitQuestion(lowered);
    TokenKeywords(Split(lowered));
  }

  lemma BookingMentions()
    ensures Mentions(QuestionKeywords, Booking)
  {
    assert MatchText(Booking.userName) == "layla kawaguchi";
    assert OccursAt("layla", "layla kawaguchi", 0);
    assert Hits(QuestionKeywords[0], Booking);
  }

  lemma ParisSilent()
    ensures !Mentions(QuestionKeywords, Paris)
  {
    assert MatchText(Paris.userName) == "sam";
    assert MatchText(Paris.text) == "going to paris";
    MissingCharNotSubstring("layla", "sam", 'l');
    MissingCharNotSubstring("layla", "going to paris", 'l');
    MissingCharNotSubstring("london?", "sam", '?');
    MissingCharNotSubstring("london?", "going to paris", '?');
  }

  lemma ScenarioMatches(keywords: seq<string>, msgs: seq<Message>)
    requires keywords == QuestionKeywords && msgs == [Booking, Paris]
    ensures MatchList(keywords, msgs) == [Booking]
  {
    BookingMentions();
    ParisSilent();
    FirstOfTwo(msgs, m => Mentions(keywords, m));
  }

  /** Filtering two elements of which only the first qualifies keeps it. */
  lemma FirstOfTwo<T>(xs: seq<T>, p: T -> bool)
    requires |xs| == 2 && p(xs[0]) && !p(xs[1])
    ensures Filter(xs, p) == [xs[0]]
  {
    assert xs[..1][..0] == [];
    assert xs[..1] == xs[..|xs| - 1];
  }

  // The expected line, assembled one concatenation at a time: the solver
  // does not equate a long chain of literal concatenations with one literal
  // in a single step, but does so for each pair, and the pairs chain.
  lemma LinePart1() ensures "[" + "2025-03-01" + "] " == "[2025-03-01] " {}
  lemma LinePart2() ensures "[2025-03-01] " + "Layla Kawaguchi" == "[2025-03-01] Layla Kawaguchi" {}
  lemma LinePart3() ensures "[2025-03-01] Layla Kawaguchi" + ": " == "[2025-03-01] Layla Kawaguchi: " {}
  lemma LinePart4() ensures "[2025-03-01] Layla Kawaguchi: " + "Booking my London trip for March 15" == "[2025-03-01] Layla Kawaguchi: Booking my London trip for March 15" {}

  lemma BookingLineIs(m: Message)
    requires m == Booking
    ensures RenderLine(m) == BookingLine
  {
    assert TimestampOf(m) == "2025-03-01";
    assert NameOf(m) == "Layla Kawaguchi";
    assert TextOf(m) == "Booking my London trip for March 15";
    LinePart1();
    LinePart2();
    LinePart3();
    LinePart4();
  }

  lemma BookingRendered(relevant: seq<Message>)
    requires relevant == [Booking]
    ensures Join(Lines(relevant), "\n") == BookingLine
  {
    var lines := Lines(relevant);
    BookingLineIs(relevant[0]);
    assert lines == [BookingLine];
  }

  /** Only the booking message is relevant, and the context is its line. */
  lemma LaylaScenario(msgs: seq<Message>, question: string)
    requires msgs == [Booking, Paris] && question == Question
    ensures FilterRelevant(msgs, question) == [Booking]
    ensures ContextFor(msgs, question) == BookingLine
  {
    var keywords := Keywords(question);
    QuestionKeywordsAre(question);
    ScenarioMatches(keywords, msgs);
    var relevant := FilterRelevant(msgs, question);
    assert relevant == Take([Booking], MatchCap);
    BookingRendered(relevant);
  }
}

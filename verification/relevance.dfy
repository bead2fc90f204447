/** The keyword relevance filter of `QAService._filter_relevant_messages`:
    extract keywords from the question, keep the messages that mention one,
    and fall back to a prefix of the collection when nothing is left. */
module Relevance {
  import opened Wrappers
  import opened Sequences
  import opened Text
  import opened Messages

  /** At most this many matching messages are returned. */
  const MatchCap := 300

  /** At most this many messages are returned when nothing matches. */
  const FallbackCap := 200

  /** Question words that never become keywords. */
  const StopWords: set<string> := {
    "when", "what", "where", "who", "how", "many", "does", "have", "the", "are",
    "is", "planning", "their", "favorite", "her", "his", "trip", "to", "for", "in",
    "at", "on", "a", "an", "and", "or"
  }

  /** A token is a keyword when it is longer than two characters and not a
      stop word. */
  predicate IsKeyword(w: string)
  {
    |w| > 2 && w !in StopWords
  }

  /** The keywords of a question: the whitespace-separated tokens of the
      lower-cased question that are keywords, in question order, duplicates
      kept. Punctuation is not stripped: "London?" yields "london?". */
  function Keywords(question: string): (r: seq<string>)
    ensures forall j :: 0 <= j < |r| ==> |r[j]| >= 3 && r[j] !in StopWords && IsWord(r[j])
  {
    var tokens := Split(Lower(question));
    var r := Filter(tokens, IsKeyword);
    assert forall j :: 0 <= j < |r| ==> IsKeyword(r[j]) && IsWord(r[j]) by {
      forall j | 0 <= j < |r|
        ensures IsKeyword(r[j]) && IsWord(r[j])
      {
        assert r[j] in r;
        var i :| 0 <= i < |tokens| && tokens[i] == r[j];
      }
    }
    r
  }

  /** The keyword list is exactly the in-order subsequence of the question's
      lower-cased tokens that are keywords: listed positions hold keywords,
      strictly increase, and no keyword token is skipped. */
  lemma KeywordsAreKeywordTokens(question: string)
    ensures var tokens := Split(Lower(question));
            var idx := Positions(tokens, IsKeyword);
            && Embeds(Keywords(question), tokens, idx)
            && forall i :: 0 <= i < |tokens| && IsKeyword(tokens[i]) ==> i in idx
  {
    FilterEmbeds(Split(Lower(question)), IsKeyword);
  }

  /** The text a field is matched against: lower-cased, `""` when absent. */
  function MatchText(field: Option<string>): (r: string)
  {
    Lower(field.GetOr(""))
  }

  /** The keyword occurs in the message's lower-cased user name or text. */
  predicate Hits(keyword: string, m: Message)
  {
    Contains(keyword, MatchText(m.userName)) || Contains(keyword, MatchText(m.text))
  }

  /** Some keyword occurs in the message. */
  predicate Mentions(keywords: seq<string>, m: Message)
  {
    exists j :: 0 <= j < |keywords| && Hits(keywords[j], m)
  }

  /** The messages that mention a keyword, in collection order. */
  function MatchList(keywords: seq<string>, messages: seq<Message>): (r: seq<Message>)
  {
    Filter(messages, m => Mentions(keywords, m))
  }

  /** Some message of the collection mentions a keyword. */
  ghost predicate SomeMatch(keywords: seq<string>, messages: seq<Message>)
  {
    exists i :: 0 <= i < |messages| && Mentions(keywords, messages[i])
  }

  /** The filter takes its keyword path: keywords exist and one matches. */
  ghost predicate OnMatchPath(messages: seq<Message>, question: string)
  {
    |Keywords(question)| > 0 && SomeMatch(Keywords(question), messages)
  }

  /** `_filter_relevant_messages(messages, question)`. */
  function FilterRelevant(messages: seq<Message>, question: string): (r: seq<Message>)
    ensures |r| <= MatchCap
    ensures forall m :: m in r ==> m in messages
    ensures OnMatchPath(messages, question) ==>
              |r| > 0 && forall m :: m in r ==> Mentions(Keywords(question), m)
    ensures !OnMatchPath(messages, question) ==>
              |r| <= FallbackCap && r == messages[..Min(FallbackCap, |messages|)]
  {
    var keywords := Keywords(question);
    if |keywords| > 0 then
      var relevant := MatchList(keywords, messages);
      if |relevant| > 0 then
        assert relevant[0] in messages && Mentions(keywords, relevant[0]);
        Take(relevant, MatchCap)
      else Take(messages, FallbackCap)
    else Take(messages, FallbackCap)
  }

  /** A message is in the match list exactly when it is in the collection
      and some keyword is a substring of its lower-cased user name or text
      (an absent field counting as empty). */
  lemma {:induction false} MatchListMembership(keywords: seq<string>, messages: seq<Message>, m: Message)
    ensures m in MatchList(keywords, messages) <==>
              m in messages &&
              exists k :: k in keywords &&
                (IsSubstring(k, MatchText(m.userName)) || IsSubstring(k, MatchText(m.text)))
  {
    if m in messages &&
       exists k :: k in keywords && (IsSubstring(k, MatchText(m.userName)) || IsSubstring(k, MatchText(m.text)))
    {
      var k :| k in keywords && (IsSubstring(k, MatchText(m.userName)) || IsSubstring(k, MatchText(m.text)));
      var j :| 0 <= j < |keywords| && keywords[j] == k;
      assert Hits(keywords[j], m);
      var i :| 0 <= i < |messages| && messages[i] == m;
      assert Mentions(keywords, messages[i]);
    }
    if m in MatchList(keywords, messages) {
      assert Mentions(keywords, m);
      var j :| 0 <= j < |keywords| && Hits(keywords[j], m);
      assert keywords[j] in keywords;
    }
  }

  /** On the keyword path the result is the first min(300, #matches)
      matches: it sits at strictly increasing positions of the collection,
      each of them a matching message, and when fewer than 300 are returned
      every matching position is among them. */
  lemma MatchPathIsFirstMatches(messages: seq<Message>, question: string)
    requires OnMatchPath(messages, question)
    ensures var p := (m: Message) => Mentions(Keywords(question), m);
            var idx := Take(Positions(messages, p), MatchCap);
            var r := FilterRelevant(messages, question);
            && Embeds(r, messages, idx)
            && |r| == Min(MatchCap, |MatchList(Keywords(question), messages)|)
            && (|r| < MatchCap ==>
                  forall i :: 0 <= i < |messages| && Mentions(Keywords(question), messages[i]) ==> i in idx)
  {
    var p := (m: Message) => Mentions(Keywords(question), m);
    FilterEmbeds(messages, p);
    EmbedsTake(Filter(messages, p), messages, Positions(messages, p), MatchCap);
  }

  /** Every result, whichever path produced it, is an order-preserving
      subsequence of the collection that uses each position at most once. */
  lemma ResultIsSubsequence(messages: seq<Message>, question: string)
    ensures exists idx :: Embeds(FilterRelevant(messages, question), messages, idx)
  {
    var r := FilterRelevant(messages, question);
    if OnMatchPath(messages, question) {
      MatchPathIsFirstMatches(messages, question);
      var p := (m: Message) => Mentions(Keywords(question), m);
      assert Embeds(r, messages, Take(Positions(messages, p), MatchCap));
    } else {
      EmbedsPrefix(messages, |r|);
    }
  }

  /** The loop of `_filter_relevant_messages` that collects matches: for
      each message, try the keywords in order and append the message at the
      first keyword found, then stop trying keywords for it. */
  method CollectRelevant(keywords: seq<string>, messages: seq<Message>) returns (relevant: seq<Message>)
    ensures relevant == MatchList(keywords, messages)
  {
    relevant := [];
    var i := 0;
    while i < |messages|
      invariant 0 <= i <= |messages|
      invariant relevant == MatchList(keywords, messages[..i])
    {
      var msg := messages[i];
      var userName := MatchText(msg.userName);
      var messageText := MatchText(msg.text);
      assert messages[..i + 1][..i] == messages[..i];
      var j := 0;
      while j < |keywords|
        invariant 0 <= j <= |keywords|
        invariant relevant == MatchList(keywords, messages[..i])
        invariant forall k :: 0 <= k < j ==> !Hits(keywords[k], msg)
      {
        if Contains(keywords[j], userName) || Contains(keywords[j], messageText) {
          relevant := relevant + [msg];
          break;
        }
        j := j + 1;
      }
      i := i + 1;
    }
    assert messages[..i] == messages;
  }
}

/** The mock assistant of main_mock.py, which stands in for the vendor during
    deployment tests: a second keyword classifier choosing one of four canned answers or
    an echoing fallback, a word-by-word "stream" closed by a `[DONE]` sentinel, a fixed
    prefixing enhancer, and the selection of the last message of a history. */
module Mock {
  import opened Wrappers
  import opened Text
  import opened KeywordRules

  // ---------------------------------------------------------------------------
  // Canned answers

  // Each answer is written as its first word followed by the rest of the text, so that
  // its first characters are at hand in proofs; the values are the literals of the
  // source.
  const GreetingAnswer: string := "Hello!" + " I'm your TATA Nexon expert assistant. I'm here to help you with everything about your SUV - from safety features to maintenance schedules, engine specifications, and troubleshooting. What would you like to know?"
  const SafetyAnswer: string := "The" + " TATA Nexon has earned a 5-Star NCAP rating with comprehensive safety features including 6 airbags, ABS with EBD, Electronic Stability Control (ESC), Rear Parking Sensors, and much more. Would you like detailed information about any specific safety feature?"
  const EngineAnswer: string := "TATA" + " Nexon offers both petrol and diesel engine options. The 1.2L Revotron petrol engine delivers 120 PS power and 170 Nm torque, while the 1.5L Revotorq diesel engine provides 110 PS power and 260 Nm torque. Both engines come with manual and AMT transmission options."
  const MaintenanceAnswer: string := "The" + " recommended maintenance schedule for TATA Nexon includes service every 10,000 km or 12 months. Regular maintenance includes engine oil change, filter replacements, brake inspection, and comprehensive vehicle check-up. Following the schedule ensures optimal performance and warranty coverage."

  /** `mock_responses`, in the order the assistant stores them. */
  const MockResponses: seq<string> := [GreetingAnswer, SafetyAnswer, EngineAnswer, MaintenanceAnswer]

  // ---------------------------------------------------------------------------
  // The classifier

  /** Which answer a message gets: one per keyword family, or the echoing fallback. */
  datatype Topic = SafetyTopic | EngineTopic | MaintenanceTopic | GreetingTopic | Unmatched

  const SafetyKeywords: seq<string> := ["safety", "airbag", "ncap", "protection"]
  const EngineKeywords: seq<string> := ["engine", "petrol", "diesel", "performance", "power"]
  const MaintenanceKeywords: seq<string> := ["maintenance", "service", "schedule", "oil"]
  const GreetingKeywords: seq<string> := ["hello", "hi", "help", "start"]

  /** The four families in the order they are tried; the first match wins. */
  const Rules: seq<Rule<Topic>> := [
    Rule(SafetyTopic, SafetyKeywords),
    Rule(EngineTopic, EngineKeywords),
    Rule(MaintenanceTopic, MaintenanceKeywords),
    Rule(GreetingTopic, GreetingKeywords)
  ]

  /** The if/elif chain of `_get_mock_response` over the lower-cased message. */
  function TopicOf(message: string): Topic {
    var lower := Lower(message);
    if ContainsAny(lower, SafetyKeywords) then SafetyTopic
    else if ContainsAny(lower, EngineKeywords) then EngineTopic
    else if ContainsAny(lower, MaintenanceKeywords) then MaintenanceTopic
    else if ContainsAny(lower, GreetingKeywords) then GreetingTopic
    else Unmatched
  }

  /** The if/elif chain is the first-match rule over the four families. */
  lemma TopicIsFirstMatch(message: string)
    ensures TopicOf(message) == FirstMatchFrom(Rules, Lower(message), Unmatched, 0)
  {
    var t := Lower(message);
    assert FirstMatchFrom(Rules, t, Unmatched, 4) == Unmatched;
    assert FirstMatchFrom(Rules, t, Unmatched, 3) == if ContainsAny(t, GreetingKeywords) then GreetingTopic else Unmatched;
    assert FirstMatchFrom(Rules, t, Unmatched, 2) == if ContainsAny(t, MaintenanceKeywords) then MaintenanceTopic else FirstMatchFrom(Rules, t, Unmatched, 3);
    assert FirstMatchFrom(Rules, t, Unmatched, 1) == if ContainsAny(t, EngineKeywords) then EngineTopic else FirstMatchFrom(Rules, t, Unmatched, 2);
  }

  /** The canned answer of each topic; `None` for the fallback. */
  function CannedAnswer(t: Topic): Option<string> {
    match t
    case SafetyTopic => Some(MockResponses[1])
    case EngineTopic => Some(MockResponses[2])
    case MaintenanceTopic => Some(MockResponses[3])
    case GreetingTopic => Some(MockResponses[0])
    case Unmatched => None
  }

  // ---------------------------------------------------------------------------
  // The fallback answer

  const FallbackLead: string := "Thank you for your question about '"
  const FallbackTail: string := "...'. As your TATA Nexon expert, I'd be happy to help! This is a mock response for deployment testing. The full AI assistant will provide comprehensive, detailed answers about all aspects of your TATA Nexon SUV including specifications, features, maintenance, troubleshooting, and more."

  /** Python's `s[:n]`. */
  function Head(s: string, n: nat): string {
    if |s| <= n then s else s[..n]
  }

  /** The part of a fallback answer between the fixed lead and the fixed tail. */
  function EchoOf(answer: string): string
    requires |FallbackLead| + |FallbackTail| <= |answer|
  {
    answer[|FallbackLead|..|answer| - |FallbackTail|]
  }

  /** The fallback answer: a fixed text that quotes the start of the message it answers,
      at most 50 characters of it. */
  function FallbackAnswer(message: string): (answer: string)
    ensures StartsWith(answer, FallbackLead) && EndsWith(answer, FallbackTail)
    ensures |FallbackLead| + |FallbackTail| <= |answer|
    ensures StartsWith(message, EchoOf(answer))
    ensures |EchoOf(answer)| == if |message| <= 50 then |message| else 50
  {
    var answer := FallbackLead + Head(message, 50) + FallbackTail;
    assert answer[..|FallbackLead|] == FallbackLead;
    assert answer[|answer| - |FallbackTail|..] == FallbackTail;
    assert EchoOf(answer) == Head(message, 50);
    answer
  }

  /** `_get_mock_response`: the canned answer of the message's topic, or the fallback. */
  function GetMockResponse(message: string): (answer: string)
    ensures CannedAnswer(TopicOf(message)).Some? ==> answer == CannedAnswer(TopicOf(message)).value
    ensures TopicOf(message) == Unmatched ==> answer == FallbackAnswer(message)
  {
    match CannedAnswer(TopicOf(message))
    case Some(canned) => canned
    case None => FallbackAnswer(message)
  }

  /** The four canned answers and every fallback answer are pairwise different, so the
      answer tells which branch was taken. */
  lemma AnswersDistinct(t: Topic, u: Topic, message: string)
    ensures t != u && CannedAnswer(t).Some? && CannedAnswer(u).Some? ==> CannedAnswer(t).value != CannedAnswer(u).value
    ensures CannedAnswer(t).Some? ==> CannedAnswer(t).value != FallbackAnswer(message)
  {
    AnswerMarks();
    FallbackMarks(message);
  }

  /** Characters that tell the canned answers apart. */
  lemma AnswerMarks()
    ensures |GreetingAnswer| > 4 && GreetingAnswer[0] == 'H'
    ensures |SafetyAnswer| > 4 && SafetyAnswer[0] == 'T' && SafetyAnswer[1] == 'h' && SafetyAnswer[2] == 'e' && SafetyAnswer[|SafetyAnswer| - 1] == '?'
    ensures |EngineAnswer| > 4 && EngineAnswer[0] == 'T' && EngineAnswer[1] == 'A'
    ensures |MaintenanceAnswer| > 4 && MaintenanceAnswer[0] == 'T' && MaintenanceAnswer[1] == 'h' && MaintenanceAnswer[2] == 'e' && MaintenanceAnswer[|MaintenanceAnswer| - 1] == '.'
  {
  }

  /** The characters a fallback answer begins with. */
  lemma FallbackMarks(message: string)
    ensures var f := FallbackAnswer(message); |f| > 2 && f[0] == 'T' && f[1] == 'h' && f[2] == 'a'
  {
    LeadMarks(FallbackAnswer(message));
  }

  /** Any text that starts with the fallback lead starts with its characters. */
  lemma LeadMarks(f: string)
    requires StartsWith(f, FallbackLead)
    ensures |f| > 2 && f[0] == 'T' && f[1] == 'h' && f[2] == 'a'
  {
    assert f[..|FallbackLead|] == FallbackLead;
    assert f[0] == FallbackLead[0] && f[1] == FallbackLead[1] && f[2] == FallbackLead[2];
  }

  /** Priority of the mock classifier, stated on answers: the answer of family `k` is
      returned exactly when one of its keywords occurs in the lower-cased message and
      no keyword of an earlier family does. So the safety answer wins whatever else
      occurs, the engine answer needs no safety keyword, the maintenance answer neither
      a safety nor an engine keyword, and the greeting none of the three. */
  lemma MockPriority(message: string, k: nat)
    requires k < |Rules|
    ensures GetMockResponse(message) == CannedAnswer(Rules[k].tag).value <==>
      ContainsAny(Lower(message), Rules[k].keywords) && forall j :: 0 <= j < k ==> !ContainsAny(Lower(message), Rules[j].keywords)
  {
    TopicPriority(message, k);
    AnswerNamesTopic(message, Rules[k].tag);
  }

  /** The priority stated on topics. */
  lemma TopicPriority(message: string, k: nat)
    requires k < |Rules|
    ensures TopicOf(message) == Rules[k].tag <==>
      ContainsAny(Lower(message), Rules[k].keywords) && forall j :: 0 <= j < k ==> !ContainsAny(Lower(message), Rules[j].keywords)
  {
    TopicIsFirstMatch(message);
    assert DistinctTags(Rules, Unmatched);
    FirstMatchPriority(Rules, Lower(message), Unmatched, 0, k);
  }

  /** A canned answer is returned exactly for its own topic. */
  lemma AnswerNamesTopic(message: string, t: Topic)
    requires CannedAnswer(t).Some?
    ensures GetMockResponse(message) == CannedAnswer(t).value <==> TopicOf(message) == t
  {
    AnswersDistinct(t, TopicOf(message), message);
  }

  /** The fallback is returned exactly when no keyword of the four families occurs. */
  lemma MockFallback(message: string)
    ensures GetMockResponse(message) == FallbackAnswer(message) <==>
      forall j :: 0 <= j < |Rules| ==> !ContainsAny(Lower(message), Rules[j].keywords)
  {
    TopicFallback(message);
    FallbackNamesTopic(message);
  }

  /** The fallback stated on topics. */
  lemma TopicFallback(message: string)
    ensures TopicOf(message) == Unmatched <==>
      forall j :: 0 <= j < |Rules| ==> !ContainsAny(Lower(message), Rules[j].keywords)
  {
    TopicIsFirstMatch(message);
    assert DistinctTags(Rules, Unmatched);
    FirstMatchFallback(Rules, Lower(message), Unmatched, 0);
  }

  /** The fallback answer is returned exactly when no topic matched. */
  lemma FallbackNamesTopic(message: string)
    ensures GetMockResponse(message) == FallbackAnswer(message) <==> TopicOf(message) == Unmatched
  {
    AnswersDistinct(TopicOf(message), TopicOf(message), message);
  }

  /** A safety keyword written anywhere into a message selects the safety answer. */
  lemma SafetyKeywordAnswers(before: string, keyword: string, after: string)
    requires keyword in SafetyKeywords
    ensures GetMockResponse(before + keyword + after) == SafetyAnswer
  {
    SafetyKeywordTopic(before, keyword, after);
  }

  /** The same, stated on topics. */
  lemma SafetyKeywordTopic(before: string, keyword: string, after: string)
    requires keyword in SafetyKeywords
    ensures TopicOf(before + keyword + after) == SafetyTopic
  {
    var k :| 0 <= k < |SafetyKeywords| && SafetyKeywords[k] == keyword;
    if k == 0 {
      assert Lower(keyword) == keyword;
    } else if k == 1 {
      assert Lower(keyword) == keyword;
    } else if k == 2 {
      assert Lower(keyword) == keyword;
    } else {
      assert Lower(keyword) == keyword;
    }
    LowerAppend(before + keyword, after);
    LowerAppend(before, keyword);
    ContainsInfix(Lower(before), keyword, Lower(after));
    assert Contains(Lower(before + keyword + after), SafetyKeywords[k]);
  }

  // ---------------------------------------------------------------------------
  // The enhancer

  const QueryPrefix: string := "TATA Nexon Query: "

  /** The mock `_enhance_user_message`: the fixed prefix, then the message unchanged. */
  function Enhance(userMessage: string): (enhanced: string)
    ensures StartsWith(enhanced, QueryPrefix)
    ensures enhanced[|QueryPrefix|..] == userMessage
  {
    var enhanced := QueryPrefix + userMessage;
    assert enhanced[..|QueryPrefix|] == QueryPrefix;
    enhanced
  }

  /** The enhancer's prefix, lower-cased as the classifier sees it. */
  lemma LowerPrefix()
    ensures Lower(QueryPrefix) == "tata nexon query: "
  {
  }

  /** Each mock keyword is separable from the lower-cased prefix: the prefix ends in a
      space, which no keyword holds, and each keyword has a letter the prefix lacks. */
  lemma SafetySeparable()
    ensures forall j :: 0 <= j < |SafetyKeywords| ==> Separable(Lower(QueryPrefix), SafetyKeywords[j])
  {
    LowerPrefix();
    var p := "tata nexon query: ";
    assert "safety"[0] !in p;
    assert "airbag"[1] !in p;
    assert "ncap"[1] !in p;
    assert "protection"[0] !in p;
  }

  lemma EngineSeparable()
    ensures forall j :: 0 <= j < |EngineKeywords| ==> Separable(Lower(QueryPrefix), EngineKeywords[j])
  {
    LowerPrefix();
    var p := "tata nexon query: ";
    assert "engine"[2] !in p;
    assert "petrol"[0] !in p;
    assert "diesel"[0] !in p;
    assert "performance"[0] !in p;
    assert "power"[0] !in p;
  }

  lemma MaintenanceSeparable()
    ensures forall j :: 0 <= j < |MaintenanceKeywords| ==> Separable(Lower(QueryPrefix), MaintenanceKeywords[j])
  {
    LowerPrefix();
    var p := "tata nexon query: ";
    assert "maintenance"[0] !in p;
    assert "service"[0] !in p;
    assert "schedule"[0] !in p;
    assert "oil"[1] !in p;
  }

  lemma GreetingSeparable()
    ensures forall j :: 0 <= j < |GreetingKeywords| ==> Separable(Lower(QueryPrefix), GreetingKeywords[j])
  {
    LowerPrefix();
    var p := "tata nexon query: ";
    assert "hello"[0] !in p;
    assert "hi"[0] !in p;
    assert "help"[0] !in p;
    assert "start"[0] !in p;
  }

  /** The prefix the enhancer adds never changes the topic: the enhanced message is
      classified as the user's message would be. */
  lemma EnhanceKeepsTopic(userMessage: string)
    ensures TopicOf(Enhance(userMessage)) == TopicOf(userMessage)
  {
    var p := Lower(QueryPrefix);
    var x := Lower(userMessage);
    LowerAppend(QueryPrefix, userMessage);
    SafetySeparable();
    ContainsAnyAfterPrefix(p, x, SafetyKeywords);
    EngineSeparable();
    ContainsAnyAfterPrefix(p, x, EngineKeywords);
    MaintenanceSeparable();
    ContainsAnyAfterPrefix(p, x, MaintenanceKeywords);
    GreetingSeparable();
    ContainsAnyAfterPrefix(p, x, GreetingKeywords);
  }

  /** The fallback quotes the enhanced message, so what it echoes is the prefix followed
      by at most 32 characters of the user's message. */
  lemma FallbackEchoesEnhanced(userMessage: string)
    ensures EchoOf(FallbackAnswer(Enhance(userMessage))) ==
      QueryPrefix + Head(userMessage, 50 - |QueryPrefix|)
  {
    var e := Enhance(userMessage);
    var echo := EchoOf(FallbackAnswer(e));
    assert |QueryPrefix| == 18;
    assert e[..|echo|] == echo;
    assert e[..|QueryPrefix|] == QueryPrefix;
    assert echo == QueryPrefix + echo[|QueryPrefix|..];
    assert echo[|QueryPrefix|..] == e[|QueryPrefix|..|echo|];
  }

  // ---------------------------------------------------------------------------
  // The word stream

  /** The `[DONE]` sentinel that closes every mock stream. */
  const Sentinel: string := "[DONE]"

  /** Every word, with a space in front. */
  function SpacedChunks(words: seq<string>): (chunks: seq<string>)
    ensures |chunks| == |words|
  {
    seq(|words|, i requires 0 <= i < |words| => " " + words[i])
  }

  /** The delta contents of the word chunks: the first word as it is, every later word
      after one space. */
  function WordChunks(words: seq<string>): (chunks: seq<string>)
    ensures |chunks| == |words|
    ensures |words| > 0 ==> chunks[0] == words[0]
    ensures forall i :: 1 <= i < |words| ==> chunks[i] == " " + words[i]
  {
    if |words| == 0 then [] else [words[0]] + SpacedChunks(words[1..])
  }

  /** `_mock_stream_response` on an answer: the delta contents of the chunks it yields,
      one per word of `answer.split()`, then the sentinel. */
  function StreamChunks(answer: string): (chunks: seq<string>)
    ensures |chunks| == |Words(answer)| + 1
    ensures chunks[|chunks| - 1] == Sentinel
    ensures chunks[..|chunks| - 1] == WordChunks(Words(answer))
  {
    WordChunks(Words(answer)) + [Sentinel]
  }

  lemma ConcatCons(w: string, rest: seq<string>)
    ensures Concat([w] + rest) == w + Concat(rest)
  {
    assert ([w] + rest)[1..] == rest;
  }

  /** The spaced chunks concatenate to the words joined by single spaces, after a space. */
  lemma {:induction false} ConcatSpacedChunks(words: seq<string>)
    requires |words| > 0
    ensures Concat(SpacedChunks(words)) == " " + JoinWith(words, " ")
    decreases |words|
  {
    var chunks := SpacedChunks(words);
    HeadTail(chunks);
    assert chunks[1..] == SpacedChunks(words[1..]);
    ConcatCons(chunks[0], chunks[1..]);
    if |words| == 1 {
      assert chunks[1..] == [];
    } else {
      ConcatSpacedChunks(words[1..]);
      JoinWithCons(words, " ");
    }
  }

  /** The word chunks concatenate to the words joined by single spaces. */
  lemma ConcatWordChunks(words: seq<string>)
    ensures Concat(WordChunks(words)) == JoinWith(words, " ")
  {
    if |words| > 0 {
      ConcatCons(words[0], SpacedChunks(words[1..]));
      if |words| > 1 {
        ConcatSpacedChunks(words[1..]);
        JoinWithCons(words, " ");
      } else {
        assert SpacedChunks(words[1..]) == [];
      }
    }
  }

  /** Reassembling a mock stream: the chunks before the sentinel concatenate to the
      answer's words joined by single spaces, and splitting that text again gives back
      exactly the answer's words. */
  lemma StreamReassembles(answer: string)
    ensures var chunks := StreamChunks(answer);
      Concat(chunks[..|chunks| - 1]) == JoinWith(Words(answer), " ") &&
      Words(Concat(chunks[..|chunks| - 1])) == Words(answer)
  {
    var words := Words(answer);
    var chunks := StreamChunks(answer);
    assert chunks[..|chunks| - 1] == WordChunks(words);
    ConcatWordChunks(words);
    WordsAreWords(answer);
    WordsOfJoin(words);
  }

  /** The sentinel is the last chunk only, whenever the answer does not begin with `[`:
      every word chunk but the first begins with a space, and the first begins with the
      answer's first character. */
  lemma SentinelOnlyLast(answer: string)
    requires |answer| > 0 && !IsPySpace(answer[0]) && answer[0] != '['
    ensures var chunks := StreamChunks(answer);
      forall i :: 0 <= i < |chunks| - 1 ==> chunks[i] != Sentinel
  {
    FirstWordStart(answer);
    var words := Words(answer);
    var wordChunks := WordChunks(words);
    var chunks := StreamChunks(answer);
    assert Sentinel[0] == '[';
    forall i | 0 <= i < |chunks| - 1 ensures chunks[i] != Sentinel {
      assert chunks[i] == wordChunks[i];
      if i == 0 {
        assert wordChunks[0] == words[0];
        assert wordChunks[0][0] == answer[0];
      } else {
        assert wordChunks[i] == " " + words[i];
        assert wordChunks[i][0] == ' ';
      }
    }
  }

  /** Every answer the mock gives begins with a letter, so its stream never yields the
      sentinel early. */
  lemma MockAnswerStart(message: string)
    ensures var a := GetMockResponse(message); |a| > 0 && (a[0] == 'T' || a[0] == 'H')
  {
    AnswerMarks();
    FallbackMarks(message);
  }

  // ---------------------------------------------------------------------------
  // send_message and send_message_with_history

  /** What `send_message` returns: a `{"content": ...}` dict, the chunk stream (the
      delta content of each chunk), or an `{"error": ...}` dict when its `try` raises. */
  datatype Reply = Content(content: string) | Streamed(chunks: seq<string>) | ErrorReply(error: string)

  /** `send_message` on a string: the message is enhanced, then answered whole, or
      streamed as the word chunks of that same answer followed by the sentinel. */
  function SendMessage(message: string, stream: bool): (reply: Reply)
    ensures !stream ==> reply == Content(GetMockResponse(Enhance(message)))
    ensures stream ==> reply == Streamed(StreamChunks(GetMockResponse(Enhance(message))))
    ensures stream ==> reply.Streamed? && |reply.chunks| > 0 && reply.chunks[|reply.chunks| - 1] == Sentinel
    ensures stream ==> forall i :: 0 <= i < |reply.chunks| - 1 ==> reply.chunks[i] != Sentinel
  {
    var answer := GetMockResponse(Enhance(message));
    if stream then
      MockAnswerStart(Enhance(message));
      SentinelOnlyLast(answer);
      Streamed(StreamChunks(answer))
    else Content(answer)
  }

  /** A value handed to `send_message` as its message: a string, or a value that cannot
      be sliced (such as `None`, an int or a dict); `error` is the text of the
      `TypeError` that slicing it raises, such as "'NoneType' object is not
      subscriptable". */
  datatype Argument = StrArgument(s: string) | Unsliceable(error: string)

  /** `send_message` on any argument: the log line of either mode slices the message
      with `[:50]` inside the `try`, so an unsliceable message raises there and the
      `except` answers with the error's text instead of an answer. */
  function SendArgument(arg: Argument, stream: bool): (reply: Reply)
    ensures reply.ErrorReply? <==> arg.Unsliceable?
    ensures arg.StrArgument? ==> reply == SendMessage(arg.s, stream)
    ensures arg.Unsliceable? ==> reply.error == arg.error
  {
    match arg
    case StrArgument(message) => SendMessage(message, stream)
    case Unsliceable(e) => ErrorReply(e)
  }

  /** Both modes give the same answer: the streamed chunks before the sentinel
      reassemble into the words of the whole-reply content. */
  lemma StreamMatchesContent(message: string)
    ensures var chunks := SendMessage(message, true).chunks;
      Words(Concat(chunks[..|chunks| - 1])) == Words(SendMessage(message, false).content)
  {
    StreamReassembles(GetMockResponse(Enhance(message)));
  }

  /** One element of the list handed to `send_message_with_history`: a string, a dict
      with or without a "content" entry, or any other value that cannot be sliced
      (`error` is the text of the `TypeError` that slicing it raises). */
  datatype HistoryItem = TextItem(text: string) | DictItem(content: Option<Argument>) | OtherItem(error: string)

  /** The message answered for a history: the last item, "Hello" for an empty history,
      and a dict's "content" entry or "Hello" when it has none. */
  function LastMessage(items: seq<HistoryItem>): (arg: Argument)
    ensures |items| == 0 ==> arg == StrArgument("Hello")
    ensures |items| > 0 && items[|items| - 1].TextItem? ==> arg == StrArgument(items[|items| - 1].text)
    ensures |items| > 0 && items[|items| - 1].DictItem? ==> arg == items[|items| - 1].content.GetOr(StrArgument("Hello"))
    ensures |items| > 0 && items[|items| - 1].OtherItem? ==> arg == Unsliceable(items[|items| - 1].error)
  {
    if |items| == 0 then StrArgument("Hello")
    else
      match items[|items| - 1]
      case TextItem(t) => StrArgument(t)
      case DictItem(c) => c.GetOr(StrArgument("Hello"))
      case OtherItem(e) => Unsliceable(e)
  }

  /** An item that cannot be sliced, or a dict whose content cannot be. */
  predicate CannotSlice(item: HistoryItem) {
    item.OtherItem? || (item.DictItem? && item.content.Some? && item.content.value.Unsliceable?)
  }

  /** `send_message_with_history`: `send_message` on the last message. An empty history
      is answered as "Hello", with the greeting; a last item that is a string, or a dict
      whose content is one, is answered as that string; a dict without content as
      "Hello"; and a last item (or dict content) that cannot be sliced gets an error
      reply carrying the slicing error's text. */
  function SendMessageWithHistory(items: seq<HistoryItem>, stream: bool): (reply: Reply)
    ensures |items| == 0 ==> reply == SendMessage("Hello", stream)
    ensures |items| == 0 && !stream ==> reply == Content(GreetingAnswer)
    ensures |items| > 0 && items[|items| - 1].TextItem? ==> reply == SendMessage(items[|items| - 1].text, stream)
    ensures |items| > 0 && items[|items| - 1] == DictItem(None) ==> reply == SendMessage("Hello", stream)
    ensures |items| > 0 && items[|items| - 1].DictItem? && items[|items| - 1].content.Some? ==>
      (items[|items| - 1].content.value.StrArgument? ==> reply == SendMessage(items[|items| - 1].content.value.s, stream))
    ensures reply.ErrorReply? <==> |items| > 0 && CannotSlice(items[|items| - 1])
    ensures |items| > 0 && items[|items| - 1].OtherItem? ==> reply == ErrorReply(items[|items| - 1].error)
    ensures |items| > 0 && items[|items| - 1].DictItem? && items[|items| - 1].content.Some? ==>
      (items[|items| - 1].content.value.Unsliceable? ==> reply == ErrorReply(items[|items| - 1].content.value.error))
  {
    if |items| == 0 then
      HelloGreets();
      SendArgument(LastMessage(items), stream)
    else
      SendArgument(LastMessage(items), stream)
  }

  /** Only the last item of a history matters: histories ending in the same item get
      the same reply, whatever came before. */
  lemma OnlyLastItemMatters(earlier1: seq<HistoryItem>, earlier2: seq<HistoryItem>, last: HistoryItem, stream: bool)
    ensures SendMessageWithHistory(earlier1 + [last], stream) == SendMessageWithHistory(earlier2 + [last], stream)
  {
    assert (earlier1 + [last])[|earlier1|] == last;
    assert (earlier2 + [last])[|earlier2|] == last;
  }

  /** "Hello" is a greeting and holds no keyword of the three earlier families. */
  lemma HelloIsGreeting()
    ensures TopicOf("Hello") == GreetingTopic
  {
    var lower := Lower("Hello");
    assert lower == "hello";
    assert Contains(lower, GreetingKeywords[0]);
    HelloNoSafety(lower);
    HelloNoEngine(lower);
    HelloNoMaintenance(lower);
  }

  lemma HelloNoSafety(lower: string)
    requires lower == "hello"
    ensures !ContainsAny(lower, SafetyKeywords)
  {
    AbsentChar(lower, "safety", 0);
    AbsentChar(lower, "airbag", 1);
    AbsentChar(lower, "ncap", 0);
    AbsentChar(lower, "protection", 0);
  }

  lemma HelloNoEngine(lower: string)
    requires lower == "hello"
    ensures !ContainsAny(lower, EngineKeywords)
  {
    AbsentChar(lower, "engine", 1);
    AbsentChar(lower, "petrol", 0);
    AbsentChar(lower, "diesel", 0);
    AbsentChar(lower, "performance", 0);
    AbsentChar(lower, "power", 0);
  }

  lemma HelloNoMaintenance(lower: string)
    requires lower == "hello"
    ensures !ContainsAny(lower, MaintenanceKeywords)
  {
    AbsentChar(lower, "maintenance", 0);
    AbsentChar(lower, "service", 0);
    AbsentChar(lower, "schedule", 0);
    AbsentChar(lower, "oil", 1);
  }

  /** "Hello", enhanced as `send_message` does, is answered with the greeting. */
  lemma HelloGreets()
    ensures GetMockResponse(Enhance("Hello")) == GreetingAnswer
  {
    EnhanceKeepsTopic("Hello");
    HelloIsGreeting();
  }

  /** An empty history is answered as "Hello" would be: with the greeting. */
  lemma EmptyHistoryGreets()
    ensures SendMessageWithHistory([], false) == Content(GreetingAnswer)
  {
    HelloGreets();
  }
}

/** The real assistant's request enhancement in main.py: a keyword classifier that
    picks one of seven context blocks for a user message, and the template that wraps
    the message in the system prompt and that block before it is sent to the vendor. */
module Prompt {
  import opened Text
  import opened KeywordRules

  /** The seven context labels, one per context block. */
  datatype Context = Safety | Maintenance | Engine | Features | Troubleshooting | Comparison | General

  const SafetyWords: seq<string> := ["safety", "secure", "protection", "airbag"]
  const MaintenanceWords: seq<string> := ["maintenance", "service", "schedule"]
  const EngineWords: seq<string> := ["engine", "performance", "power", "specifications"]
  const FeatureWords: seq<string> := ["features", "technology", "infotainment"]
  const TroubleWords: seq<string> := ["problem", "issue", "trouble", "fix"]
  const ComparisonWords: seq<string> := ["compare", "vs", "difference", "better"]

  /** The six families in the order the classifier tries them; the first match wins. */
  const Rules: seq<Rule<Context>> := [
    Rule(Safety, SafetyWords),
    Rule(Maintenance, MaintenanceWords),
    Rule(Engine, EngineWords),
    Rule(Features, FeatureWords),
    Rule(Troubleshooting, TroubleWords),
    Rule(Comparison, ComparisonWords)
  ]

  /** The classification as main.py writes it: an if/elif chain over the lower-cased
      message, falling back to `General`. */
  function Classify(message: string): Context {
    var lower := Lower(message);
    if ContainsAny(lower, SafetyWords) then Safety
    else if ContainsAny(lower, MaintenanceWords) then Maintenance
    else if ContainsAny(lower, EngineWords) then Engine
    else if ContainsAny(lower, FeatureWords) then Features
    else if ContainsAny(lower, TroubleWords) then Troubleshooting
    else if ContainsAny(lower, ComparisonWords) then Comparison
    else General
  }

  /** The if/elif chain is the first-match rule over the six families in priority order. */
  lemma ClassifyIsFirstMatch(message: string)
    ensures Classify(message) == FirstMatchFrom(Rules, Lower(message), General, 0)
  {
    var t := Lower(message);
    assert FirstMatchFrom(Rules, t, General, 6) == General;
    assert FirstMatchFrom(Rules, t, General, 5) == if ContainsAny(t, ComparisonWords) then Comparison else General;
    assert FirstMatchFrom(Rules, t, General, 4) == if ContainsAny(t, TroubleWords) then Troubleshooting else FirstMatchFrom(Rules, t, General, 5);
    assert FirstMatchFrom(Rules, t, General, 3) == if ContainsAny(t, FeatureWords) then Features else FirstMatchFrom(Rules, t, General, 4);
    assert FirstMatchFrom(Rules, t, General, 2) == if ContainsAny(t, EngineWords) then Engine else FirstMatchFrom(Rules, t, General, 3);
    assert FirstMatchFrom(Rules, t, General, 1) == if ContainsAny(t, MaintenanceWords) then Maintenance else FirstMatchFrom(Rules, t, General, 2);
  }

  /** Priority of the classifier: family `k` is chosen exactly when one of its keywords
      occurs in the lower-cased message and no keyword of an earlier family does; so the
      safety family wins whatever else occurs, and the comparison family is chosen only
      when none of the five before it matches. */
  lemma ClassifyPriority(message: string, k: nat)
    requires k < |Rules|
    ensures Classify(message) == Rules[k].tag <==>
      ContainsAny(Lower(message), Rules[k].keywords) && forall j :: 0 <= j < k ==> !ContainsAny(Lower(message), Rules[j].keywords)
  {
    ClassifyIsFirstMatch(message);
    assert DistinctTags(Rules, General);
    FirstMatchPriority(Rules, Lower(message), General, 0, k);
  }

  /** The general block is used exactly when no keyword of the six families occurs in
      the lower-cased message. */
  lemma ClassifyGeneral(message: string)
    ensures Classify(message) == General <==> forall j :: 0 <= j < |Rules| ==> !ContainsAny(Lower(message), Rules[j].keywords)
  {
    ClassifyIsFirstMatch(message);
    assert DistinctTags(Rules, General);
    FirstMatchFallback(Rules, Lower(message), General, 0);
  }

  /** Writing a safety keyword anywhere into any message selects the safety block,
      whatever other keywords the message holds. */
  lemma SafetyKeywordWins(before: string, keyword: string, after: string)
    requires keyword in SafetyWords
    ensures Classify(before + keyword + after) == Safety
  {
    var k :| 0 <= k < |SafetyWords| && SafetyWords[k] == keyword;
    if k == 0 {
      assert Lower(keyword) == keyword;
    } else if k == 1 {
      assert Lower(keyword) == keyword;
    } else if k == 2 {
      assert Lower(keyword) == keyword;
    } else {
      assert Lower(keyword) == keyword;
    }
    LowerAppend(before + keyword, after);
    LowerAppend(before, keyword);
    ContainsInfix(Lower(before), keyword, Lower(after));
    assert Contains(Lower(before + keyword + after), SafetyWords[k]);
  }

  /** Classification looks only at the lower-cased message: the ASCII upper-cased message
      and the lower-cased message select the same block as the message itself. */
  lemma ClassifyIgnoresCase(message: string)
    ensures Classify(Upper(message)) == Classify(message)
    ensures Classify(Lower(message)) == Classify(message)
  {
    LowerOfUpper(message);
    assert forall i :: 0 <= i < |message| ==> LowerChar(LowerChar(message[i])) == LowerChar(message[i]);
    assert Lower(Lower(message)) == Lower(message);
  }

  // ---------------------------------------------------------------------------
  // The prompt template

  /** The guidance block appended to the system prompt for each label. */
  function ContextBlock(c: Context): string {
    match c
    case Safety => SafetyBlock
    case Maintenance => MaintenanceBlock
    case Engine => EngineBlock
    case Features => FeaturesBlock
    case Troubleshooting => TroubleshootingBlock
    case Comparison => ComparisonBlock
    case General => GeneralBlock
  }

  /** The text that introduces the user's question. */
  const QuestionMarker: string := "\n\n**USER QUESTION**: "

  /** The closing instruction every prompt ends with. */
  const ClosingInstruction: string :=
    "\n\nPlease provide a detailed, structured response following the guidelines above."

  /** Everything before the user's question. */
  function Header(systemPrompt: string, c: Context): string {
    systemPrompt + "\n\n" + ContextBlock(c) + QuestionMarker
  }

  /** `_enhance_user_message` of the real assistant, whose system prompt is
      `systemPrompt`: the system prompt, a blank line, the context block chosen by the
      classifier, then the question marker, the question as given and the closing
      instruction. */
  function EnhanceUserMessage(systemPrompt: string, message: string): (prompt: string)
    ensures StartsWith(prompt, systemPrompt + "\n\n" + ContextBlock(Classify(message)))
    ensures EndsWith(prompt, QuestionMarker + message + ClosingInstruction)
  {
    var prompt := Header(systemPrompt, Classify(message)) + message + ClosingInstruction;
    assert prompt == (systemPrompt + "\n\n" + ContextBlock(Classify(message)))
      + (QuestionMarker + message + ClosingInstruction);
    prompt
  }

  /** Reads the question back out of a prompt built for label `c`: what lies between the
      header and the closing instruction. */
  function QuestionOf(systemPrompt: string, prompt: string, c: Context): string
    requires |Header(systemPrompt, c)| + |ClosingInstruction| <= |prompt|
  {
    prompt[|Header(systemPrompt, c)|..|prompt| - |ClosingInstruction|]
  }

  /** The question travels unmodified: reading it back from the prompt at the place the
      classifier's block leaves for it gives exactly the user's message. */
  lemma QuestionRoundTrip(systemPrompt: string, message: string)
    ensures var prompt := EnhanceUserMessage(systemPrompt, message);
      |Header(systemPrompt, Classify(message))| + |ClosingInstruction| <= |prompt|
      && QuestionOf(systemPrompt, prompt, Classify(message)) == message
  {
    var h := Header(systemPrompt, Classify(message));
    var prompt := EnhanceUserMessage(systemPrompt, message);
    assert prompt == h + message + ClosingInstruction;
    assert prompt[|h|..|prompt| - |ClosingInstruction|] == message;
  }

  /** The context blocks of `_enhance_user_message`, word for word. */
  const SafetyBlock: string :=
    "\n"
    + "**CONTEXT**: User is asking about safety features. Focus on:\n"
    + "- 5-Star Global NCAP rating (highlight this first)\n"
    + "- Specific safety technologies and how they work\n"
    + "- Real-world safety benefits\n"
    + "- Comparison with competitors if relevant\n"

  const MaintenanceBlock: string :=
    "\n"
    + "**CONTEXT**: User is asking about maintenance. Provide:\n"
    + "- Specific service intervals with km/time periods\n"
    + "- Detailed maintenance checklist\n"
    + "- Cost-saving tips and preventive care\n"
    + "- Seasonal maintenance advice\n"

  const EngineBlock: string :=
    "\n"
    + "**CONTEXT**: User is asking about engine/performance. Include:\n"
    + "- Detailed technical specifications\n"
    + "- Real-world performance figures\n"
    + "- Fuel efficiency data (ARAI certified)\n"
    + "- Driving experience insights\n"

  const FeaturesBlock: string :=
    "\n"
    + "**CONTEXT**: User is asking about features/technology. Cover:\n"
    + "- Detailed feature explanations\n"
    + "- How to use specific features\n"
    + "- Benefits and practical applications\n"
    + "- Connectivity and smart features\n"

  const TroubleshootingBlock: string :=
    "\n"
    + "**CONTEXT**: User has a problem/issue. Provide:\n"
    + "- Step-by-step troubleshooting guide\n"
    + "- When to consult service center\n"
    + "- Preventive measures\n"
    + "- Safety considerations\n"

  const ComparisonBlock: string :=
    "\n"
    + "**CONTEXT**: User wants comparison. Provide:\n"
    + "- Balanced comparison with key differentiators\n"
    + "- Strengths and unique selling points\n"
    + "- Value proposition analysis\n"
    + "- Recommendation based on use case\n"

  const GeneralBlock: string :=
    "\n"
    + "**CONTEXT**: General query about TATA Nexon. Provide comprehensive information with:\n"
    + "- Quick summary (2-3 lines)\n"
    + "- Detailed explanation with bullet points\n"
    + "- Practical tips and advice\n"
    + "- Additional helpful context\n"
}

/** First-match keyword routing, the scheme both assistants use to pick an answer: an
    ordered list of keyword families, each with a tag; the tag of the first family one of
    whose keywords occurs in the text wins, and a fallback tag is used when none does. */
module KeywordRules {
  import opened Text

  /** A keyword family: `tag` is chosen when any of `keywords` occurs in the text. */
  datatype Rule<T> = Rule(tag: T, keywords: seq<string>)

  /** The tag of the first rule of `rules`, from index `i` on, whose keywords occur in
      `text`, or `fallback` when none does. */
  function FirstMatchFrom<T>(rules: seq<Rule<T>>, text: string, fallback: T, i: nat): (c: T)
    ensures c == fallback || exists j :: i <= j < |rules| && c == rules[j].tag
    decreases |rules| - i
  {
    if i >= |rules| then fallback
    else if ContainsAny(text, rules[i].keywords) then rules[i].tag
    else FirstMatchFrom(rules, text, fallback, i + 1)
  }

  /** No two rules carry the same tag, and none carries the fallback tag. */
  predicate DistinctTags<T(==)>(rules: seq<Rule<T>>, fallback: T) {
    && (forall j :: 0 <= j < |rules| ==> rules[j].tag != fallback)
    && (forall i, j :: 0 <= i < j < |rules| ==> rules[i].tag != rules[j].tag)
  }

  /** With distinct tags, rule `k` is chosen from index `i` on exactly when it matches
      and no rule between `i` and `k` does. */
  lemma {:induction false} FirstMatchPriority<T>(rules: seq<Rule<T>>, text: string, fallback: T, i: nat, k: nat)
    requires DistinctTags(rules, fallback)
    requires i <= k < |rules|
    ensures FirstMatchFrom(rules, text, fallback, i) == rules[k].tag <==>
      ContainsAny(text, rules[k].keywords) && forall j :: i <= j < k ==> !ContainsAny(text, rules[j].keywords)
    decreases k - i
  {
    if ContainsAny(text, rules[i].keywords) {
      if i < k {
        assert rules[i].tag != rules[k].tag;
      }
    } else if i == k {
      var c := FirstMatchFrom(rules, text, fallback, i + 1);
      if c != fallback {
        var j :| i + 1 <= j < |rules| && c == rules[j].tag;
        assert rules[k].tag != rules[j].tag;
      }
    } else {
      FirstMatchPriority(rules, text, fallback, i + 1, k);
    }
  }

  /** The fallback is chosen from index `i` on exactly when no rule from `i` on matches. */
  lemma {:induction false} FirstMatchFallback<T>(rules: seq<Rule<T>>, text: string, fallback: T, i: nat)
    requires DistinctTags(rules, fallback)
    requires i <= |rules|
    ensures FirstMatchFrom(rules, text, fallback, i) == fallback <==>
      forall j :: i <= j < |rules| ==> !ContainsAny(text, rules[j].keywords)
    decreases |rules| - i
  {
    if i < |rules| {
      FirstMatchFallback(rules, text, fallback, i + 1);
    }
  }
}

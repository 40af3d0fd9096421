/**
 * `calculateRelevance`: an additive score made of a category bonus, title
 * tokens found in the text, shared key terms and five pattern-to-id rules,
 * multiplied by the clause's weight. `Relevance` is the specification;
 * `CalculateRelevance` is the accumulating loop of background.js.
 */
module Scoring {
  import opened Wrappers
  import opened JsText
  import opened LawKnowledge
  import opened Category

  const CategoryBonus := 30
  const TitleBonus := 10
  const KeyTermBonus := 5
  const RuleBonus := 20

  /** The key terms a clause's snippet and the text must share. */
  const KeyTerms: seq<string> := [
    "수집", "이용", "제공", "동의", "고지", "목적", "제3자", "개인정보",
    "환불", "철회", "해지", "위약금", "책임", "면책", "마케팅", "광고"
  ]

  /**
   * The two shapes of pattern the rules use: `/a.*b|b.*a/` (both words, in
   * either order, on one line) and `/w1|w2|.../` (any of the words).
   */
  datatype Pattern = EitherOrderOnLine(a: string, b: string) | AnyWord(words: seq<string>)

  predicate PatternMatches(p: Pattern, text: string) {
    match p
    case EitherOrderOnLine(a, b) => OrderedOnLine(text, a, b) || OrderedOnLine(text, b, a)
    case AnyWord(words) => ContainsAny(text, words)
  }

  /** A pattern only matches a text that holds its words: both of them, or one of the list. */
  lemma PatternNeedsItsWords(p: Pattern, text: string)
    requires PatternMatches(p, text)
    ensures p.EitherOrderOnLine? ==> Contains(text, p.a) && Contains(text, p.b)
    ensures p.AnyWord? ==> exists k :: 0 <= k < |p.words| && Contains(text, p.words[k])
  {
    if p.EitherOrderOnLine? {
      if OrderedOnLine(text, p.a, p.b) {
        OrderedOnLineContainsBoth(text, p.a, p.b);
      } else {
        OrderedOnLineContainsBoth(text, p.b, p.a);
      }
    }
  }

  /** A pattern over the raw text and the clause ids it rewards. */
  datatype LawRule = LawRule(pattern: Pattern, lawIds: seq<string>)

  const LawRules: seq<LawRule> := [
    LawRule(EitherOrderOnLine("개인정보", "수집"), ["P1", "P2", "P3"]),
    LawRule(EitherOrderOnLine("제3자", "제공"), ["P4", "TP1", "TP3"]),
    LawRule(AnyWord(["환불", "철회", "반품"]), ["T1", "T2"]),
    LawRule(AnyWord(["마케팅", "광고"]), ["M1", "M2", "M6"]),
    LawRule(AnyWord(["위약금", "손해배상"]), ["T4"])
  ]

  predicate RuleFires(rule: LawRule, text: string, id: string) {
    PatternMatches(rule.pattern, text) && id in rule.lawIds
  }

  predicate TitleTokenHits(token: string, lowerText: string) {
    |token| > 2 && Contains(lowerText, token)
  }

  /** Title tokens longer than two characters found in the text, counted with repetition. */
  function TitleHits(tokens: seq<string>, lowerText: string): (n: nat)
    ensures n <= |tokens|
  {
    if tokens == [] then 0
    else
      var n := TitleHits(tokens[..|tokens| - 1], lowerText);
      if TitleTokenHits(tokens[|tokens| - 1], lowerText) then n + 1 else n
  }

  predicate KeyTermShared(term: string, lowerSnippet: string, lowerText: string) {
    Contains(lowerSnippet, term) && Contains(lowerText, term)
  }

  /** Key terms present in both the snippet and the text. */
  function KeyTermHits(terms: seq<string>, lowerSnippet: string, lowerText: string): (n: nat)
    ensures n <= |terms|
  {
    if terms == [] then 0
    else
      var n := KeyTermHits(terms[..|terms| - 1], lowerSnippet, lowerText);
      if KeyTermShared(terms[|terms| - 1], lowerSnippet, lowerText) then n + 1 else n
  }

  /** Rules whose pattern matches the text and whose id list holds `id`. */
  function RuleHits(rules: seq<LawRule>, text: string, id: string): (n: nat)
    ensures n <= |rules|
  {
    if rules == [] then 0
    else
      var n := RuleHits(rules[..|rules| - 1], text, id);
      if RuleFires(rules[|rules| - 1], text, id) then n + 1 else n
  }

  /** The category bonus compares the detected name with the clause's raw `category`. */
  predicate CategoryMatches(text: string, law: Clause) {
    DetectTermsCategory(text).Name() == law.category
  }

  /**
   * The additive score before the weight is applied: a matching category
   * alone is worth 30, and a clause that earns no bonus at all scores 0.
   */
  function BaseScore(text: string, law: Clause): (s: nat)
    ensures CategoryMatches(text, law) ==> s >= CategoryBonus
    ensures s == 0 <==>
      (!CategoryMatches(text, law) && RuleHits(LawRules, text, law.id) == 0
       && TitleHits(SplitOnWhitespace(Lower(law.title)), Lower(text)) == 0
       && KeyTermHits(KeyTerms, Lower(law.snippet), Lower(text)) == 0)
  {
    (if CategoryMatches(text, law) then CategoryBonus else 0)
    + TitleBonus * TitleHits(SplitOnWhitespace(Lower(law.title)), Lower(text))
    + KeyTermBonus * KeyTermHits(KeyTerms, Lower(law.snippet), Lower(text))
    + RuleBonus * RuleHits(LawRules, text, law.id)
  }

  /** `weight || 1.0`: a missing weight and a weight of 0 both act as 1.0. */
  function EffectiveWeight(weight: Option<real>): (w: real)
    ensures w != 0.0
    ensures weight.None? || weight.value == 0.0 ==> w == 1.0
    ensures weight.Some? && weight.value != 0.0 ==> w == weight.value
    ensures weight.Some? && weight.value >= 0.0 ==> w > 0.0
  {
    match weight
    case None => 1.0
    case Some(x) => if x == 0.0 then 1.0 else x
  }

  /** `score * (weight || 1.0)`. */
  function Scaled(score: nat, weight: Option<real>): real {
    (score as real) * EffectiveWeight(weight)
  }

  /**
   * The relevance of clause `law` to the terms text `text`. Without a weight
   * it is the base score itself, and whatever the weight it is zero exactly
   * when the base score is.
   */
  function Relevance(text: string, law: Clause): (r: real)
    ensures law.weight.None? ==> r == BaseScore(text, law) as real
    ensures r == 0.0 <==> BaseScore(text, law) == 0
  {
    ScaledZero(BaseScore(text, law), law.weight);
    Scaled(BaseScore(text, law), law.weight)
  }

  lemma ScaledZero(score: nat, weight: Option<real>)
    ensures weight.None? ==> Scaled(score, weight) == score as real
    ensures Scaled(score, weight) == 0.0 <==> score == 0
  {
    var w := EffectiveWeight(weight);
    if score != 0 {
      assert (score as real) * w != 0.0;
    }
  }

  /** `titleKeywords.forEach(...)`: ten points per title token longer than two characters found in the text. */
  method CountTitleHits(titleKeywords: seq<string>, lowerTerm: string) returns (points: nat)
    ensures points == TitleBonus * TitleHits(titleKeywords, lowerTerm)
  {
    points := 0;
    for i := 0 to |titleKeywords|
      invariant points == TitleBonus * TitleHits(titleKeywords[..i], lowerTerm)
    {
      var keyword := titleKeywords[i];
      if |keyword| > 2 && Contains(lowerTerm, keyword) {
        points := points + TitleBonus;
      }
      assert titleKeywords[..i + 1][..i] == titleKeywords[..i];
    }
    assert titleKeywords[..|titleKeywords|] == titleKeywords;
  }

  /** `keyTerms.forEach(...)`: five points per key term in both the snippet and the text. */
  method CountKeyTermHits(keyTerms: seq<string>, lowerSnippet: string, lowerTerm: string) returns (points: nat)
    ensures points == KeyTermBonus * KeyTermHits(keyTerms, lowerSnippet, lowerTerm)
  {
    points := 0;
    for i := 0 to |keyTerms|
      invariant points == KeyTermBonus * KeyTermHits(keyTerms[..i], lowerSnippet, lowerTerm)
    {
      var term := keyTerms[i];
      if Contains(lowerSnippet, term) && Contains(lowerTerm, term) {
        points := points + KeyTermBonus;
      }
      assert keyTerms[..i + 1][..i] == keyTerms[..i];
    }
    assert keyTerms[..|keyTerms|] == keyTerms;
  }

  /** `lawKeywords.forEach(...)`: twenty points per rule that matches the text and lists the id. */
  method CountRuleHits(lawKeywords: seq<LawRule>, termText: string, id: string) returns (points: nat)
    ensures points == RuleBonus * RuleHits(lawKeywords, termText, id)
  {
    points := 0;
    for i := 0 to |lawKeywords|
      invariant points == RuleBonus * RuleHits(lawKeywords[..i], termText, id)
    {
      var rule := lawKeywords[i];
      if PatternMatches(rule.pattern, termText) && id in rule.lawIds {
        points := points + RuleBonus;
      }
      assert lawKeywords[..i + 1][..i] == lawKeywords[..i];
    }
    assert lawKeywords[..|lawKeywords|] == lawKeywords;
  }

  /**
   * The body of `calculateRelevance` up to its `return`: the four bonuses
   * accumulated in the order the source adds them. The lowercased category
   * the source computes is never read, so it is not computed here.
   */
  method AccumulateScore(termText: string, lawItem: Clause) returns (score: nat)
    ensures score == BaseScore(termText, lawItem)
  {
    score := 0;
    var lowerTerm := Lower(termText);
    var lowerTitle := Lower(lawItem.title);
    var lowerSnippet := Lower(lawItem.snippet);

    var termType := DetectTermsCategory(termText);
    if termType.Name() == lawItem.category {
      score := score + CategoryBonus;
    }
    var titlePoints := CountTitleHits(SplitOnWhitespace(lowerTitle), lowerTerm);
    score := score + titlePoints;
    var keyTermPoints := CountKeyTermHits(KeyTerms, lowerSnippet, lowerTerm);
    score := score + keyTermPoints;
    var rulePoints := CountRuleHits(LawRules, termText, lawItem.id);
    score := score + rulePoints;
  }

  /** `calculateRelevance(termText, lawItem)`: the accumulated score times `weight || 1.0`. */
  method CalculateRelevance(termText: string, lawItem: Clause) returns (score: real)
    ensures score == Relevance(termText, lawItem)
  {
    var base := AccumulateScore(termText, lawItem);
    score := Scaled(base, lawItem.weight);
  }

  /** With a missing or non-negative weight the relevance is never negative. */
  lemma RelevanceNonNegative(text: string, law: Clause)
    requires law.weight.None? || law.weight.value >= 0.0
    ensures Relevance(text, law) >= 0.0
    ensures Relevance(text, law) > 0.0 <==> BaseScore(text, law) > 0
  {
    ScaledSign(BaseScore(text, law), law.weight);
  }

  lemma ScaledSign(score: nat, weight: Option<real>)
    requires weight.None? || weight.value >= 0.0
    ensures Scaled(score, weight) >= 0.0
    ensures Scaled(score, weight) > 0.0 <==> score > 0
  {
    var w := EffectiveWeight(weight);
    assert w > 0.0;
  }

  /** No clause id is listed by two rules. */
  ghost predicate IdListsDisjoint(rules: seq<LawRule>) {
    forall i, j, id :: 0 <= i < j < |rules| && id in rules[i].lawIds ==> id !in rules[j].lawIds
  }

  lemma {:induction false} UnlistedIdHasNoRuleHits(rules: seq<LawRule>, text: string, id: string)
    requires forall k :: 0 <= k < |rules| ==> id !in rules[k].lawIds
    ensures RuleHits(rules, text, id) == 0
  {
    if rules != [] {
      UnlistedIdHasNoRuleHits(rules[..|rules| - 1], text, id);
    }
  }

  lemma {:induction false} DisjointRulesHitAtMostOnce(rules: seq<LawRule>, text: string, id: string)
    requires IdListsDisjoint(rules)
    ensures RuleHits(rules, text, id) <= 1
  {
    if rules != [] {
      var init := rules[..|rules| - 1];
      assert IdListsDisjoint(init) by {
        forall i, j, x | 0 <= i < j < |init| && x in init[i].lawIds ensures x !in init[j].lawIds {
          assert init[i] == rules[i] && init[j] == rules[j];
        }
      }
      if RuleFires(rules[|rules| - 1], text, id) {
        forall k | 0 <= k < |init| ensures id !in init[k].lawIds {
          assert init[k] == rules[k];
        }
        UnlistedIdHasNoRuleHits(init, text, id);
      } else {
        DisjointRulesHitAtMostOnce(init, text, id);
      }
    }
  }

  /** The five id lists are pairwise disjoint, so the rule bonus of a clause is 0 or 20. */
  lemma RuleBonusZeroOrTwenty(text: string, law: Clause)
    ensures RuleBonus * RuleHits(LawRules, text, law.id) in {0, RuleBonus}
  {
    LawRulesDisjoint();
    DisjointRulesHitAtMostOnce(LawRules, text, law.id);
  }

  /** The five id lists of the rule table share no id. */
  lemma LawRulesDisjoint()
    ensures IdListsDisjoint(LawRules)
  {
    forall i, j, id | 0 <= i < j < |LawRules| && id in LawRules[i].lawIds
      ensures id !in LawRules[j].lawIds
    {
      var ids := LawRules[i].lawIds;
      var k :| 0 <= k < |ids| && ids[k] == id;
      assert id == ids[k];
    }
  }

  /**
   * Only a clause whose raw `category` is exactly one of the four names the
   * detector returns can earn the category bonus ("Privacy" never does).
   */
  lemma CategoryBonusNeedsExactName(text: string, law: Clause)
    requires law.category !in {"privacy", "marketing", "third-party", "terms"}
    ensures !CategoryMatches(text, law)
  {
  }

  /** The score is bounded by its four parts at their largest. */
  lemma {:induction false} BaseScoreBound(text: string, law: Clause)
    ensures BaseScore(text, law) <= CategoryBonus
      + TitleBonus * |SplitOnWhitespace(Lower(law.title))| + KeyTermBonus * |KeyTerms| + RuleBonus
  {
    RuleBonusZeroOrTwenty(text, law);
  }
}

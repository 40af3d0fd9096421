/** `detectTermsCategory`: a first-match-wins keyword table over the lowercased text. */
module Category {
  import opened JsText

  datatype Category = Privacy | Marketing | ThirdParty | Terms {
    /** The string `detectTermsCategory` returns, compared with a clause's raw `category`. */
    function Name(): (n: string)
      ensures n in {"privacy", "marketing", "third-party", "terms"}
    {
      match this
      case Privacy => "privacy"
      case Marketing => "marketing"
      case ThirdParty => "third-party"
      case Terms => "terms"
    }
  }

  /** A rule fires when the lowercased text contains one of its keywords. */
  datatype CategoryRule = CategoryRule(keywords: seq<string>, category: Category)

  /**
   * The rules in the order they are tried. The third-party rule spells
   * "third party" with a space, so "third-party" in a text does not fire it.
   */
  const CategoryRules: seq<CategoryRule> := [
    CategoryRule(["개인정보", "privacy"], Privacy),
    CategoryRule(["마케팅", "marketing", "광고"], Marketing),
    CategoryRule(["제3자", "third party"], ThirdParty)
  ]

  predicate Fires(rule: CategoryRule, lower: string) {
    ContainsAny(lower, rule.keywords)
  }

  /**
   * The position of the first rule that fires on `lower`, or `|rules|` when
   * none does.
   */
  function FirstFiring(rules: seq<CategoryRule>, lower: string): (k: nat)
    ensures k <= |rules|
    ensures forall j :: 0 <= j < k ==> !Fires(rules[j], lower)
    ensures k < |rules| ==> Fires(rules[k], lower)
  {
    if rules == [] || Fires(rules[0], lower) then 0
    else
      var k := FirstFiring(rules[1..], lower);
      assert forall j :: 1 <= j < |rules| ==> rules[j] == rules[1..][j - 1];
      k + 1
  }

  /**
   * `detectTermsCategory(termText)`: the category of the first rule that
   * fires on the lowercased text, `Terms` when none does.
   */
  function DetectTermsCategory(text: string): (c: Category)
    ensures c == Privacy <==> Fires(CategoryRules[0], Lower(text))
    ensures c == Marketing <==> !Fires(CategoryRules[0], Lower(text)) && Fires(CategoryRules[1], Lower(text))
    ensures c == ThirdParty <==>
      !Fires(CategoryRules[0], Lower(text)) && !Fires(CategoryRules[1], Lower(text))
      && Fires(CategoryRules[2], Lower(text))
    ensures c == Terms <==> forall k :: 0 <= k < |CategoryRules| ==> !Fires(CategoryRules[k], Lower(text))
  {
    var k := FirstFiring(CategoryRules, Lower(text));
    if k < |CategoryRules| then CategoryRules[k].category else Terms
  }

  /** A text naming personal information is `privacy` whatever else it mentions. */
  lemma PrivacyWinsOverMarketing(text: string)
    requires Contains(Lower(text), "개인정보")
    ensures DetectTermsCategory(text) == Privacy
  {
    assert CategoryRules[0].keywords[0] == "개인정보";
  }

  lemma {:induction false} NoPrivacyKeyword(lower: string)
    requires lower == "third-party"
    ensures !Fires(CategoryRules[0], lower)
  {
    NotContainsByMismatch(lower, "개인정보", 0);
    NotContainsByMismatch(lower, "privacy", 0);
  }

  lemma {:induction false} NoMarketingKeyword(lower: string)
    requires lower == "third-party"
    ensures !Fires(CategoryRules[1], lower)
  {
    NotContainsByMismatch(lower, "마케팅", 0);
    NotContainsByMismatch(lower, "marketing", 0);
    NotContainsByMismatch(lower, "광고", 0);
  }

  lemma {:induction false} NoThirdPartyKeyword(lower: string)
    requires lower == "third-party"
    ensures !Fires(CategoryRules[2], lower)
  {
    NotContainsByMismatch(lower, "제3자", 0);
    NotContainsByMismatch(lower, "third party", 5);
  }

  /**
   * The third-party rule looks for "third party" with a space: a text that
   * spells it "third-party" falls through to `Terms`.
   */
  lemma HyphenatedThirdPartyIsTerms(text: string)
    requires text == "third-party"
    ensures DetectTermsCategory(text) == Terms
  {
    var lower := Lower(text);
    assert lower == "third-party" by {
      forall i | 0 <= i < |lower| ensures lower[i] == text[i] {
        assert !('A' <= text[i] <= 'Z');
      }
    }
    NoPrivacyKeyword(lower);
    NoMarketingKeyword(lower);
    NoThirdPartyKeyword(lower);
  }
}

/**
 * The popup's decisions: which view to show from the badge text and the
 * stored analysis, the recommendation label and icon lookups, and the
 * "how long ago" bucketing of a timestamp.
 */
module Popup {
  import opened Wrappers

  // ---------------------------------------------------------------------
  // The view chosen when the popup opens

  /** The stored analysis of the tab; only its `isError` flag steers the choice. */
  datatype StoredAnalysis = StoredAnalysis(isError: bool)

  /** What the popup does: close itself, or show one of its views. */
  datatype PopupView =
    | ClosePopup
    | Analyzing
    | Results(shown: StoredAnalysis)
    | NoData
    | ErrorView

  const AnalyzingBadges: set<string> := {"분석중", "분석 중", "analyzing"}
  const DoneBadges: set<string> := {"완료", "done"}
  const ErrorBadges: set<string> := {"오류", "error"}

  /**
   * The decision chain of the popup. `analysis` is the stored analysis
   * (`None` when absent), `badgeText` the tab's badge (`""` when unset or
   * unreadable), and `retry` what the second storage read, one second
   * later, finds; it is only consulted for a "done" badge without an
   * analysis.
   */
  function ChooseView(analysis: Option<StoredAnalysis>, badgeText: string, retry: Option<StoredAnalysis>): (v: PopupView)
    ensures v == ClosePopup <==> analysis.None? && badgeText == ""
    ensures v == Analyzing <==> badgeText in AnalyzingBadges
    ensures v == ErrorView <==> badgeText in ErrorBadges && !(analysis.Some? && analysis.value.isError)
    ensures v == NoData <==>
      analysis.None? && badgeText != "" && badgeText !in AnalyzingBadges && badgeText !in ErrorBadges
      && (badgeText in DoneBadges ==> retry.None?)
    ensures v.Results? ==> analysis == Some(v.shown) || (analysis.None? && badgeText in DoneBadges && retry == Some(v.shown))
  {
    if analysis.None? && badgeText == "" then ClosePopup
    else if badgeText == "분석중" || badgeText == "분석 중" || badgeText == "analyzing" then Analyzing
    else if badgeText == "완료" || badgeText == "done" then
      if analysis.Some? then Results(analysis.value)
      else if retry.Some? then Results(retry.value)
      else NoData
    else if badgeText == "오류" || badgeText == "error" then
      if analysis.Some? && analysis.value.isError then Results(analysis.value) else ErrorView
    else if analysis.Some? then Results(analysis.value)
    else NoData
  }

  /** The second read matters only when the badge says "done" and nothing was stored. */
  lemma RetryOnlyForMissingDoneResult(analysis: Option<StoredAnalysis>, badgeText: string, r1: Option<StoredAnalysis>, r2: Option<StoredAnalysis>)
    requires !(analysis.None? && badgeText in DoneBadges)
    ensures ChooseView(analysis, badgeText, r1) == ChooseView(analysis, badgeText, r2)
  {
  }

  /** A stored analysis is shown whenever the badge says neither "analyzing" nor "error". */
  lemma StoredAnalysisShown(a: StoredAnalysis, badgeText: string, retry: Option<StoredAnalysis>)
    requires badgeText !in AnalyzingBadges && badgeText !in ErrorBadges
    ensures ChooseView(Some(a), badgeText, retry) == Results(a)
  {
  }

  // ---------------------------------------------------------------------
  // Recommendation label and icon

  const AcceptText: string := "\U{2713} 권장"
  const CautionText: string := "\U{26A1} 주의"
  const RejectText: string := "\U{2717} 비권장"
  const AcceptIcon: string := "\U{2705}"
  const CautionIcon: string := "\U{26A0}\U{FE0F}"
  const RejectIcon: string := "\U{274C}"

  const TextTable: map<string, string> := map["accept" := AcceptText, "caution" := CautionText, "reject" := RejectText]
  const IconTable: map<string, string> := map["accept" := AcceptIcon, "caution" := CautionIcon, "reject" := RejectIcon]

  /** The key a property lookup uses: `undefined` becomes the string "undefined". */
  function KeyOf(recommendation: Option<string>): string {
    recommendation.GetOr("undefined")
  }

  /**
   * `table[recommendation] || fallback`, with the table read as intended:
   * only its own three entries count, everything else falls back.
   */
  function Lookup(table: map<string, string>, fallback: string, recommendation: Option<string>): (r: string)
    ensures KeyOf(recommendation) in table ==> r == table[KeyOf(recommendation)] || (table[KeyOf(recommendation)] == "" && r == fallback)
    ensures KeyOf(recommendation) !in table ==> r == fallback
  {
    var key := KeyOf(recommendation);
    if key in table && table[key] != "" then table[key] else fallback
  }

  /** `getRecommendationText`, as intended. */
  function RecommendationText(recommendation: Option<string>): (r: string)
    ensures r in {AcceptText, CautionText, RejectText}
    ensures r == AcceptText <==> recommendation == Some("accept")
    ensures r == RejectText <==> recommendation == Some("reject")
  {
    Lookup(TextTable, CautionText, recommendation)
  }

  /** `getRecommendationIcon`, as intended. */
  function RecommendationIcon(recommendation: Option<string>): (r: string)
    ensures r in {AcceptIcon, CautionIcon, RejectIcon}
    ensures r == AcceptIcon <==> recommendation == Some("accept")
    ensures r == RejectIcon <==> recommendation == Some("reject")
  {
    Lookup(IconTable, CautionIcon, recommendation)
  }

  /** Label and icon always name the same recommendation. */
  lemma TextAndIconAgree(recommendation: Option<string>)
    ensures RecommendationText(recommendation) == AcceptText <==> RecommendationIcon(recommendation) == AcceptIcon
    ensures RecommendationText(recommendation) == CautionText <==> RecommendationIcon(recommendation) == CautionIcon
    ensures RecommendationText(recommendation) == RejectText <==> RecommendationIcon(recommendation) == RejectIcon
  {
  }

  // The lookup as written reads a plain object literal, which also answers
  // for the members every object inherits.

  /** What a property read on an object literal can produce. */
  datatype JsValue = JsString(s: string) | JsInherited(member: string) | JsUndefined

  /** The members an object literal inherits from `Object.prototype`. */
  const ObjectPrototypeMembers: set<string> := {
    "constructor", "hasOwnProperty", "isPrototypeOf", "propertyIsEnumerable",
    "toLocaleString", "toString", "valueOf", "__proto__",
    "__defineGetter__", "__defineSetter__", "__lookupGetter__", "__lookupSetter__"
  }

  /**
   * `table[key]` on an object literal whose own entries are `table`: an own
   * entry wins, an inherited member answers only for its own name, and
   * any other key reads as `undefined`.
   */
  function PropertyRead(table: map<string, string>, key: string): (v: JsValue)
    ensures key in table ==> v == JsString(table[key])
    ensures v.JsInherited? ==> key !in table && v.member == key && key in ObjectPrototypeMembers
    ensures v.JsUndefined? <==> key !in table && key !in ObjectPrototypeMembers
  {
    if key in table then JsString(table[key])
    else if key in ObjectPrototypeMembers then JsInherited(key)
    else JsUndefined
  }

  /** JavaScript truthiness of the values above; every inherited member is a function or an object. */
  predicate Truthy(v: JsValue) {
    match v
    case JsString(s) => s != ""
    case JsInherited(_) => true
    case JsUndefined => false
  }

  /**
   * `texts[recommendation] || '⚡ 주의'`, as written: never a falsy value,
   * a string is one of the three labels, and anything else is a member
   * inherited under the recommendation's own name.
   */
  function RecommendationTextAsWritten(recommendation: Option<string>): (v: JsValue)
    ensures Truthy(v)
    ensures v.JsString? ==> v.s in {AcceptText, CautionText, RejectText}
    ensures v.JsInherited? ==> KeyOf(recommendation) in ObjectPrototypeMembers
  {
    var v := PropertyRead(TextTable, KeyOf(recommendation));
    if Truthy(v) then v else JsString(CautionText)
  }

  /**
   * `icons[recommendation] || '⚠️'`, as written: never a falsy value, a
   * string is one of the three icons, and anything else is a member
   * inherited under the recommendation's own name.
   */
  function RecommendationIconAsWritten(recommendation: Option<string>): (v: JsValue)
    ensures Truthy(v)
    ensures v.JsString? ==> v.s in {AcceptIcon, CautionIcon, RejectIcon}
    ensures v.JsInherited? ==> KeyOf(recommendation) in ObjectPrototypeMembers
  {
    var v := PropertyRead(IconTable, KeyOf(recommendation));
    if Truthy(v) then v else JsString(CautionIcon)
  }

  /**
   * The reply's recommendation `"constructor"` yields the `Object` function
   * instead of a label or an icon, where the caution entry was meant.
   */
  lemma InheritedMemberEscapesFallback()
    ensures RecommendationTextAsWritten(Some("constructor")) == JsInherited("constructor")
    ensures RecommendationIconAsWritten(Some("constructor")) == JsInherited("constructor")
    ensures RecommendationText(Some("constructor")) == CautionText
    ensures RecommendationIcon(Some("constructor")) == CautionIcon
  {
  }

  /** Away from the inherited member names, the lookups as written and as intended agree. */
  lemma AsWrittenAgreesElsewhere(recommendation: Option<string>)
    requires KeyOf(recommendation) !in ObjectPrototypeMembers
    ensures RecommendationTextAsWritten(recommendation) == JsString(RecommendationText(recommendation))
    ensures RecommendationIconAsWritten(recommendation) == JsString(RecommendationIcon(recommendation))
  {
  }

  // ---------------------------------------------------------------------
  // `formatTimestamp`

  /** `Math.floor((now - date) / 60000)`; Dafny's division on `int` rounds down for a positive divisor. */
  function MinutesBetween(nowMs: int, thenMs: int): (d: int)
    ensures d * 60000 <= nowMs - thenMs < (d + 1) * 60000
  {
    (nowMs - thenMs) / 60000
  }

  /** The wording `formatTimestamp` picks. */
  datatype Age = JustNow | MinutesAgo(minutes: int) | HoursAgo(hours: int) | OnDate

  /**
   * Under a minute (including timestamps in the future) is "just now", under
   * an hour counts minutes, under a day counts whole hours, and anything
   * older shows the date.
   */
  function TimestampBucket(diffMinutes: int): (a: Age)
    ensures a == JustNow <==> diffMinutes < 1
    ensures a.MinutesAgo? <==> 1 <= diffMinutes < 60
    ensures a.MinutesAgo? ==> a.minutes == diffMinutes
    ensures a.HoursAgo? <==> 60 <= diffMinutes < 1440
    ensures a.HoursAgo? ==> 1 <= a.hours <= 23 && a.hours * 60 <= diffMinutes < (a.hours + 1) * 60
    ensures a == OnDate <==> diffMinutes >= 1440
  {
    if diffMinutes < 1 then JustNow
    else if diffMinutes < 60 then MinutesAgo(diffMinutes)
    else if diffMinutes < 1440 then HoursAgo(diffMinutes / 60)
    else OnDate
  }
}

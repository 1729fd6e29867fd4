/** Translation of a MET Norway weather symbol code (such as
    "partlycloudy_day") into a readable description: an exact, case-sensitive
    table lookup first, then an ordered list of substring rules on the
    lower-cased code, and finally the code itself. */
module Symbols {
  import opened Wrappers
  import opened Text

  /** The placeholder shown when there is nothing to show. */
  const NoData: string := "No data"

  /** The fixed table of known provider codes. */
  const SymbolMap: map<string, string> := map[
    "clearsky" := "Clear sky",
    "clearsky_day" := "Clear sky",
    "clearsky_night" := "Clear sky",
    "partlycloudy_day" := "Partly cloudy",
    "partlycloudy_night" := "Partly cloudy",
    "cloudy" := "Cloudy",
    "fair_day" := "Fair weather",
    "fair_night" := "Fair weather",
    "rain" := "Rain",
    "lightrain" := "Light rain",
    "heavyrain" := "Heavy rain",
    "rainshowers" := "Rain showers",
    "rainshowersandthunder" := "Rain showers and thunder",
    "heavyrainandthunder" := "Heavy rain with thunder",
    "sleet" := "Sleet",
    "lightsleet" := "Light sleet",
    "snow" := "Snow",
    "lightsnow" := "Light snow",
    "heavysnow" := "Heavy snow",
    "fog" := "Fog",
    "unknown" := NoData
  ]

  /** The substring heuristic, tried in this order on the lower-cased code;
      the first test that succeeds decides the description. */
  function Heuristic(lower: string): Option<string> {
    if Contains(lower, "clearsky") then Some("Clear sky")
    else if Contains(lower, "sleet") then Some("Sleet")
    else if Contains(lower, "snow") then Some("Snow")
    else if Contains(lower, "rain") && Contains(lower, "thunder") then Some("Rain with thunder")
    else if Contains(lower, "rain") then Some("Rain")
    else if Contains(lower, "cloud") then Some("Cloudy")
    else if Contains(lower, "fog") then Some("Fog")
    else None
  }

  /** `translate_symbol`. `None` stands for a code that is absent. */
  function TranslateSymbol(code: Option<string>): (r: string)
    ensures code == None || code == Some("") ==> r == NoData
    ensures code.Some? && code.value != "" ==> r != ""
  {
    match code
    case None => NoData
    case Some(c) =>
      if c == "" then NoData
      else if c in SymbolMap then SymbolMap[c]
      else match Heuristic(ToLower(c))
        case Some(d) => d
        case None => c
  }

  // ---------------------------------------------------------------------
  // An independent statement of the heuristic: an ordered rule list,
  // where a rule applies when the code contains all of its words.

  datatype Rule = Rule(words: seq<string>, description: string)

  const Rules: seq<Rule> := [
    Rule(["clearsky"], "Clear sky"),
    Rule(["sleet"], "Sleet"),
    Rule(["snow"], "Snow"),
    Rule(["rain", "thunder"], "Rain with thunder"),
    Rule(["rain"], "Rain"),
    Rule(["cloud"], "Cloudy"),
    Rule(["fog"], "Fog")
  ]

  predicate Applies(rule: Rule, s: string) {
    forall w :: w in rule.words ==> Contains(s, w)
  }

  /** The description of the first rule of `rules` that applies to `s`. */
  function FirstMatch(rules: seq<Rule>, s: string): Option<string> {
    if rules == [] then None
    else if Applies(rules[0], s) then Some(rules[0].description)
    else FirstMatch(rules[1..], s)
  }

  /** First match wins: `FirstMatch` picks rule `k` when rule `k` applies
      and no earlier one does. */
  lemma {:induction false} FirstMatchIsEarliest(rules: seq<Rule>, s: string, k: nat)
    requires k < |rules|
    ensures (Applies(rules[k], s) && forall j :: 0 <= j < k ==> !Applies(rules[j], s))
            ==> FirstMatch(rules, s) == Some(rules[k].description)
  {
    if k > 0 && Applies(rules[k], s) && forall j :: 0 <= j < k ==> !Applies(rules[j], s) {
      assert !Applies(rules[0], s);
      assert forall j :: 0 <= j < k - 1 ==> rules[1..][j] == rules[j + 1];
      FirstMatchIsEarliest(rules[1..], s, k - 1);
    }
  }

  /** `FirstMatch` finds nothing exactly when no rule applies. */
  lemma {:induction false} FirstMatchNone(rules: seq<Rule>, s: string)
    ensures FirstMatch(rules, s) == None <==> forall j :: 0 <= j < |rules| ==> !Applies(rules[j], s)
  {
    if rules != [] {
      FirstMatchNone(rules[1..], s);
      assert forall j :: 1 <= j < |rules| ==> rules[1..][j - 1] == rules[j];
    }
  }

  /** A rule applies to `s` exactly when `s` contains each of its words. */
  lemma AppliesOneOrTwo(s: string, a: string, b: string, d: string)
    ensures Applies(Rule([a], d), s) == Contains(s, a)
    ensures Applies(Rule([a, b], d), s) == (Contains(s, a) && Contains(s, b))
  {
    assert a in [a];
    assert a in [a, b] && b in [a, b];
  }

  /** `rule` decides when it applies to `s`; otherwise `rest` does. */
  function ApplyRule(rule: Rule, s: string, rest: Option<string>): Option<string> {
    if Applies(rule, s) then Some(rule.description) else rest
  }

  /** `FirstMatch` over a list of seven rules, written out. */
  lemma FirstMatchOfSeven(r: seq<Rule>, s: string)
    requires |r| == 7
    ensures FirstMatch(r, s) == ApplyRule(r[0], s, ApplyRule(r[1], s, ApplyRule(r[2], s,
              ApplyRule(r[3], s, ApplyRule(r[4], s, ApplyRule(r[5], s, ApplyRule(r[6], s, None)))))))
  {
    var r1 := r[1..]; var r2 := r1[1..]; var r3 := r2[1..];
    var r4 := r3[1..]; var r5 := r4[1..]; var r6 := r5[1..];
    assert r6[1..] == [];
    assert r1[0] == r[1] && r2[0] == r[2] && r3[0] == r[3];
    assert r4[0] == r[4] && r5[0] == r[5] && r6[0] == r[6];
    assert FirstMatch(r6, s) == ApplyRule(r[6], s, None);
    assert FirstMatch(r5, s) == ApplyRule(r[5], s, FirstMatch(r6, s));
    assert FirstMatch(r4, s) == ApplyRule(r[4], s, FirstMatch(r5, s));
    assert FirstMatch(r3, s) == ApplyRule(r[3], s, FirstMatch(r4, s));
    assert FirstMatch(r2, s) == ApplyRule(r[2], s, FirstMatch(r3, s));
    assert FirstMatch(r1, s) == ApplyRule(r[1], s, FirstMatch(r2, s));
  }

  /** The if-chain of `translate_symbol` is the ordered rule list. */
  lemma HeuristicIsRuleList(lower: string)
    ensures Heuristic(lower) == FirstMatch(Rules, lower)
  {
    FirstMatchOfSeven(Rules, lower);
    AppliesOneOrTwo(lower, "clearsky", "", "Clear sky");
    AppliesOneOrTwo(lower, "sleet", "", "Sleet");
    AppliesOneOrTwo(lower, "snow", "", "Snow");
    AppliesOneOrTwo(lower, "rain", "thunder", "Rain with thunder");
    AppliesOneOrTwo(lower, "rain", "", "Rain");
    AppliesOneOrTwo(lower, "cloud", "", "Cloudy");
    AppliesOneOrTwo(lower, "fog", "", "Fog");
  }

  // ---------------------------------------------------------------------
  // Properties of translate_symbol.

  /** An absent or empty code reads "No data". */
  lemma AbsentIsNoData()
    ensures TranslateSymbol(None) == NoData
    ensures TranslateSymbol(Some("")) == NoData
  {
  }

  /** Every code of the table translates to exactly its table entry. */
  lemma TableCodesTranslateExactly(c: string)
    requires c in SymbolMap
    ensures TranslateSymbol(Some(c)) == SymbolMap[c]
  {
    assert "" !in SymbolMap;
  }

  /** Two entries the table promises. */
  lemma TableExamples()
    ensures TranslateSymbol(Some("unknown")) == "No data"
    ensures TranslateSymbol(Some("heavyrainandthunder")) == "Heavy rain with thunder"
  {
    TableCodesTranslateExactly("unknown");
    TableCodesTranslateExactly("heavyrainandthunder");
  }

  /** Outside the table, the heuristic on the lower-cased code decides. */
  lemma RulesDecideOutsideTable(c: string)
    requires c != "" && c !in SymbolMap
    ensures TranslateSymbol(Some(c)) == Heuristic(ToLower(c)).GetOr(c)
  {
  }

  /** A non-empty code outside the table is decided by the rule list on its
      lower-cased form, and comes back unchanged when no rule applies. */
  lemma OutsideTableUsesRules(c: string)
    requires c != "" && c !in SymbolMap
    ensures FirstMatch(Rules, ToLower(c)).Some? ==> TranslateSymbol(Some(c)) == FirstMatch(Rules, ToLower(c)).value
    ensures FirstMatch(Rules, ToLower(c)) == None ==> TranslateSymbol(Some(c)) == c
  {
    HeuristicIsRuleList(ToLower(c));
  }

  /** Identity fallback: a code outside the table to whose lower-cased form
      no rule applies is returned as it is. */
  lemma UnmatchedCodeIsKept(c: string)
    requires c != "" && c !in SymbolMap
    requires forall j :: 0 <= j < |Rules| ==> !Applies(Rules[j], ToLower(c))
    ensures TranslateSymbol(Some(c)) == c
  {
    FirstMatchNone(Rules, ToLower(c));
    HeuristicIsRuleList(ToLower(c));
  }

  /** Rule order: a code containing "rain" and "thunder" and none of the
      words of the earlier rules reads "Rain with thunder", not "Rain". */
  lemma ThunderBeatsRain(c: string)
    requires c != "" && c !in SymbolMap
    requires Contains(ToLower(c), "rain") && Contains(ToLower(c), "thunder")
    requires !Contains(ToLower(c), "clearsky") && !Contains(ToLower(c), "sleet") && !Contains(ToLower(c), "snow")
    ensures TranslateSymbol(Some(c)) == "Rain with thunder"
  {
  }

  /** Rule order: sleet and snow win over every rain rule. */
  lemma SleetAndSnowBeatRain(c: string)
    requires c != "" && c !in SymbolMap
    requires !Contains(ToLower(c), "clearsky")
    ensures Contains(ToLower(c), "sleet") ==> TranslateSymbol(Some(c)) == "Sleet"
    ensures !Contains(ToLower(c), "sleet") && Contains(ToLower(c), "snow") ==> TranslateSymbol(Some(c)) == "Snow"
  {
  }

  /** The exact lookup is case-sensitive and the rules are not: a code
      outside the table whose lower-case form is "heavyrain" reads "Rain"
      (by the rain rule), not the table's "Heavy rain". */
  lemma CaseVariantUsesRules(c: string)
    requires c !in SymbolMap && ToLower(c) == "heavyrain"
    ensures TranslateSymbol(Some(c)) == "Rain"
  {
    assert |c| == 9;
    RulesDecideOutsideTable(c);
    HeavyRainIsRain();
  }

  lemma HeavyRainIsRain()
    ensures Heuristic("heavyrain") == Some("Rain")
  {
    assert 'c' !in "heavyrain" && 's' !in "heavyrain" && 't' !in "heavyrain";
    NotContainsFirstChar("heavyrain", "clearsky");
    NotContainsFirstChar("heavyrain", "sleet");
    NotContainsFirstChar("heavyrain", "snow");
    NotContainsFirstChar("heavyrain", "thunder");
    assert OccursAt("heavyrain", "rain", 5);
    ContainsIsOccurrence("heavyrain", "rain");
  }

  /** Every result is a table entry, a rule description or the code itself. */
  lemma ResultIsKnownOrCode(c: string)
    requires c != ""
    ensures var r := TranslateSymbol(Some(c));
            r in SymbolMap.Values || (exists j :: 0 <= j < |Rules| && Rules[j].description == r) || r == c
  {
    if c in SymbolMap {
    } else {
      var lower := ToLower(c);
      HeuristicIsRuleList(lower);
      var rules := Rules;
      FirstMatchFromList(rules, lower);
    }
  }

  /** A match of `FirstMatch` is the description of one of the rules. */
  lemma {:induction false} FirstMatchFromList(rules: seq<Rule>, s: string)
    ensures FirstMatch(rules, s).Some? ==>
            exists j :: 0 <= j < |rules| && rules[j].description == FirstMatch(rules, s).value
  {
    if rules != [] && !Applies(rules[0], s) {
      FirstMatchFromList(rules[1..], s);
      if FirstMatch(rules[1..], s).Some? {
        var j :| 0 <= j < |rules[1..]| && rules[1..][j].description == FirstMatch(rules[1..], s).value;
        assert rules[j + 1] == rules[1..][j];
      }
    }
  }
}

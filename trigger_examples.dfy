/**
 * The documented trigger strings and what they parse to. Each trigger
 * string is written as its words joined by single spaces (so
 * `Join(["click", "once"], ' ')` is `"click once"`); each example folds the
 * modifier tokens into the modifiers object one at a time.
 */
module TriggerExamples {
  import opened Wrappers
  import opened JsStrings
  import opened Utils
  import opened Trigger

  /** `"click"`: the event alone, with an empty modifiers object. */
  lemma ClickAlone()
    ensures ParsedTrigger(Some("click")) == Some(Trigger("click", map[]))
  {
    SplitNoSeparator("click", ' ');
    assert Split("click", ' ')[1..] == [];
  }

  /** `"click delay"`: a bare interval name stores an `undefined` interval. */
  lemma ClickWithBareDelay()
    ensures ParsedTrigger(Some(Join(["click", "delay"], ' '))) ==
      Some(Trigger("click", map["delay" := Interval(None)]))
  {
    var words := ["click", "delay"];
    ParsedWords(words);
    TrimUntouched("delay");
    BareIntervalName("delay");
    ModifiersOfSnoc([], "delay");
    assert words[1..] == [] + ["delay"];
  }

  /** The tokens `once prevent capture passive`: all four flags are `true`. */
  lemma FlagsFold()
    ensures ModifiersOf(["once", "prevent", "capture", "passive"]) ==
      map["once" := Flag, "prevent" := Flag, "capture" := Flag, "passive" := Flag]
  {
    var t := ["once", "prevent", "capture", "passive"];
    assert t[..0] + [t[0]] == t[..1];
    assert t[..1] + [t[1]] == t[..2];
    assert t[..2] + [t[2]] == t[..3];
    assert t[..3] + [t[3]] == t;
    FlagToken(t[0]);
    FlagToken(t[1]);
    FlagToken(t[2]);
    FlagToken(t[3]);
    ModifiersOfSnoc(t[..0], t[0]);
    ModifiersOfSnoc(t[..1], t[1]);
    ModifiersOfSnoc(t[..2], t[2]);
    ModifiersOfSnoc(t[..3], t[3]);
  }

  /** `"click once prevent capture passive"`: the four flags are `true`. */
  lemma ClickWithFlags()
    ensures ParsedTrigger(Some(Join(["click", "once", "prevent", "capture", "passive"], ' '))) ==
      Some(Trigger("click", map["once" := Flag, "prevent" := Flag, "capture" := Flag, "passive" := Flag]))
  {
    var words := ["click", "once", "prevent", "capture", "passive"];
    ParsedWords(words);
    assert words[1..] == ["once", "prevent", "capture", "passive"];
    FlagsFold();
  }

  /** `once`, a token that writes nothing, then `passive`: only the two flags are set. */
  lemma SkippedMiddleFold(t: seq<string>)
    requires |t| == 3 && t[0] == "once" && t[2] == "passive"
    requires TokenSetting(t[1]) == None
    ensures ModifiersOf(t) == map["once" := Flag, "passive" := Flag]
  {
    assert t[..0] + [t[0]] == t[..1];
    assert t[..1] + [t[1]] == t[..2];
    assert t[..2] + [t[2]] == t;
    FlagToken(t[0]);
    FlagToken(t[2]);
    ModifiersOfSnoc(t[..0], t[0]);
    ModifiersOfSnoc(t[..1], t[1]);
    ModifiersOfSnoc(t[..2], t[2]);
  }

  /** `"click once  passive"`: the empty token between the two spaces is skipped. */
  lemma ClickWithEmptyToken()
    ensures ParsedTrigger(Some(Join(["click", "once", "", "passive"], ' '))) ==
      Some(Trigger("click", map["once" := Flag, "passive" := Flag]))
  {
    var words := ["click", "once", "", "passive"];
    ParsedWords(words);
    TokenSettingCases("");
    SkippedMiddleFold(words[1..]);
  }

  /** The bare token `unknown` writes nothing. */
  lemma UnknownToken()
    ensures TokenSetting("unknown") == None
  {
    TrimUntouched("unknown");
    TokenSettingCases("unknown");
    SplitNoSeparator("unknown", ':');
  }

  /** `"click once unknown passive"`: the unknown bare token is dropped. */
  lemma ClickWithUnknownToken()
    ensures ParsedTrigger(Some(Join(["click", "once", "unknown", "passive"], ' '))) ==
      Some(Trigger("click", map["once" := Flag, "passive" := Flag]))
  {
    var words := ["click", "once", "unknown", "passive"];
    ParsedWords(words);
    UnknownToken();
    SkippedMiddleFold(words[1..]);
  }

  /** The token `invalid:100ms` writes nothing: `invalid` is not an interval modifier. */
  lemma InvalidToken()
    ensures TokenSetting("invalid:100ms") == None
  {
    UnknownNameToken("invalid", "100ms");
    assert "invalid" + ":" + "100ms" == "invalid:100ms";
  }

  /** `"click invalid:100ms"`: an unknown `name:value` token is dropped. */
  lemma ClickWithInvalidModifier()
    ensures ParsedTrigger(Some(Join(["click", "invalid:100ms"], ' '))) == Some(Trigger("click", map[]))
  {
    var words := ["click", "invalid:100ms"];
    ParsedWords(words);
    InvalidToken();
    assert words[1..] == [] + ["invalid:100ms"];
    ModifiersOfSnoc([], "invalid:100ms");
  }

  /**
   * An event followed by two different interval modifiers, each written as
   * the decimal text of a number and a unit: both are set, in milliseconds.
   */
  lemma IntervalPair(event: string, a: string, n: nat, b: string, p: nat, u: string)
    requires event != "" && ' ' !in event
    requires IsIntervalName(a) && IsIntervalName(b) && a != b && IsUnit(u)
    ensures ParsedTrigger(Some(Join([event, a + ":" + NatToString(n) + u, b + ":" + NatToString(p) + u], ' '))) ==
      Some(Trigger(event, map[a := Interval(Some(n * UnitScale(u))), b := Interval(Some(p * UnitScale(u)))]))
  {
    var t := [a + ":" + NatToString(n) + u, b + ":" + NatToString(p) + u];
    var words := [event] + t;
    assert ' ' !in NatToString(n) && ' ' !in NatToString(p);
    assert ' ' !in t[0] && ' ' !in t[1];
    ParsedWords(words);
    assert words[1..] == t;
    IntervalTokenValue(a, n, u);
    IntervalTokenValue(b, p, u);
    TwoSettings(t[0], t[1], a, Interval(Some(n * UnitScale(u))), b, Interval(Some(p * UnitScale(u))));
  }

  /** Two tokens that each write a setting give the object with both. */
  lemma TwoSettings(t0: string, t1: string, k0: string, v0: ModVal, k1: string, v1: ModVal)
    requires TokenSetting(t0) == Some((k0, v0)) && TokenSetting(t1) == Some((k1, v1))
    ensures ModifiersOf([t0, t1]) == map[k0 := v0, k1 := v1]
  {
    ModifiersOfSnoc([], t0);
    ModifiersOfSnoc([t0], t1);
    assert [t0] + [t1] == [t0, t1];
    assert [] + [t0] == [t0];
  }

  /** `"scroll throttle:100ms debounce:200ms"`: both interval modifiers in milliseconds. */
  lemma ScrollWithIntervals()
    ensures ParsedTrigger(Some(Join(["scroll", "throttle:100ms", "debounce:200ms"], ' '))) ==
      Some(Trigger("scroll", map["throttle" := Interval(Some(100)), "debounce" := Interval(Some(200))]))
  {
    assert "throttle" + ":" + NatToString(100) + "ms" == "throttle:100ms" by { assert NatToString(100) == "100"; }
    assert "debounce" + ":" + NatToString(200) + "ms" == "debounce:200ms" by { assert NatToString(200) == "200"; }
    IntervalPair("scroll", "throttle", 100, "debounce", 200, "ms");
  }
}

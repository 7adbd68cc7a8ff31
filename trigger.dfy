/**
 * The trigger grammar of `oyc-trigger`: an event name followed by
 * space-separated modifiers.
 */
module Trigger {
  import opened Wrappers
  import opened JsStrings
  import opened Utils

  /** A modifier's value: the flag `true`, or an interval in milliseconds that may be `undefined`. */
  datatype ModVal = Flag | Interval(ms: Option<nat>)

  /** The `modifiers` object, keyed by modifier name. */
  type Modifiers = map<string, ModVal>

  /** `{ event, modifiers }`. */
  datatype TriggerDescriptor = Trigger(event: string, modifiers: Modifiers)

  /** The bare modifiers that stand for `true`. */
  predicate IsFlagName(m: string)
  {
    m == "once" || m == "prevent" || m == "capture" || m == "passive"
  }

  /** The modifiers written `name:interval`. */
  predicate IsIntervalName(m: string)
  {
    m == "poll" || m == "delay" || m == "throttle" || m == "debounce"
  }

  /**
   * What one modifier token writes into `modifiers`, if anything: after
   * trimming, an empty token and an unknown one write nothing; a flag
   * writes `true`; `name:value` with an interval name writes
   * `parseInterval(value)`, where `value` is the text between the first
   * and the second colon, or `undefined` when there is no colon.
   */
  function TokenSetting(part: string): (r: Option<(string, ModVal)>)
    ensures r.Some? ==> (IsFlagName(r.value.0) && r.value.1 == Flag) || (IsIntervalName(r.value.0) && r.value.1.Interval?)
  {
    SettingOf(Trim(part))
  }

  /** The three ways a token is read, by its trimmed text. */
  lemma TokenSettingCases(part: string)
    ensures var m := Trim(part);
      (m == "" ==> TokenSetting(part) == None)
      && (m != "" && IsFlagName(m) ==> TokenSetting(part) == Some((m, Flag)))
      && (m != "" && !IsFlagName(m) ==> TokenSetting(part) == ComplexSetting(m))
  {
  }

  /** The setting of an already trimmed token. */
  function SettingOf(modifier: string): Option<(string, ModVal)>
  {
    if modifier == "" then None
    else if IsFlagName(modifier) then Some((modifier, Flag))
    else ComplexSetting(modifier)
  }

  /** The setting of a `name:value` token: `complexPart[0]` names it and only `complexPart[1]` is read. */
  function ComplexSetting(modifier: string): Option<(string, ModVal)>
  {
    var complexPart := Split(modifier, ':');
    var name := complexPart[0];
    var value := if |complexPart| > 1 then Some(complexPart[1]) else None;
    if IsIntervalName(name) then Some((name, Interval(ParseInterval(value)))) else None
  }

  /** What each token writes, in token order. */
  function Settings(parts: seq<string>): (r: seq<Option<(string, ModVal)>>)
    ensures |r| == |parts| && forall i :: 0 <= i < |parts| ==> r[i] == TokenSetting(parts[i])
  {
    seq(|parts|, i requires 0 <= i < |parts| => TokenSetting(parts[i]))
  }

  /** The modifiers object once the settings have been written in order, a later one overwriting an earlier. */
  function ApplySettings(settings: seq<Option<(string, ModVal)>>): Modifiers
  {
    if |settings| == 0 then map[]
    else
      var m := ApplySettings(settings[..|settings| - 1]);
      match settings[|settings| - 1]
      case None => m
      case Some(kv) => m[kv.0 := kv.1]
  }

  /** One more token writes its setting over the modifiers so far. */
  lemma SettingsSnoc(parts: seq<string>, index: nat)
    requires 1 <= index < |parts|
    ensures ApplySettings(Settings(parts[1..index + 1])) ==
      match TokenSetting(parts[index])
      case None => ApplySettings(Settings(parts[1..index]))
      case Some(kv) => ApplySettings(Settings(parts[1..index]))[kv.0 := kv.1]
  {
    var before := Settings(parts[1..index]);
    assert Settings(parts[1..index + 1]) == before + [TokenSetting(parts[index])];
    assert (before + [TokenSetting(parts[index])])[..index - 1] == before;
  }

  /** A further setting writes over the object built so far. */
  lemma ApplySettingsSnoc(settings: seq<Option<(string, ModVal)>>, last: Option<(string, ModVal)>)
    ensures ApplySettings(settings + [last]) ==
      match last
      case None => ApplySettings(settings)
      case Some(kv) => ApplySettings(settings)[kv.0 := kv.1]
  {
    assert (settings + [last])[..|settings|] == settings;
  }

  /** The modifiers object after the tokens of `parts` have been applied in order. */
  function ModifiersOf(parts: seq<string>): Modifiers
  {
    ApplySettings(Settings(parts))
  }

  /** One more token writes its setting over the modifiers object of the tokens before it. */
  lemma ModifiersOfSnoc(parts: seq<string>, part: string)
    ensures ModifiersOf(parts + [part]) ==
      match TokenSetting(part)
      case None => ModifiersOf(parts)
      case Some(kv) => ModifiersOf(parts)[kv.0 := kv.1]
  {
    assert Settings(parts + [part]) == Settings(parts) + [TokenSetting(part)];
    ApplySettingsSnoc(Settings(parts), TokenSetting(part));
  }

  /** Tokens that are all flags set exactly those flags, each to `true`. */
  lemma {:induction false} FlagTokens(parts: seq<string>)
    requires forall i :: 0 <= i < |parts| ==> IsFlagName(parts[i])
    ensures forall k :: k in ModifiersOf(parts) <==> k in parts
    ensures forall k :: k in ModifiersOf(parts) ==> ModifiersOf(parts)[k] == Flag
  {
    if |parts| > 0 {
      var n := |parts| - 1;
      FlagTokens(parts[..n]);
      FlagToken(parts[n]);
      assert parts[..n] + [parts[n]] == parts;
      ModifiersOfSnoc(parts[..n], parts[n]);
      forall k ensures k in parts <==> k in parts[..n] || k == parts[n] {
        if k in parts {
          var i :| 0 <= i < |parts| && parts[i] == k;
          if i < n { assert parts[..n][i] == k; }
        }
      }
    }
  }

  /**
   * `parseTrigger(triggerString)` as a value: `undefined` exactly for a
   * falsy string; otherwise an event free of spaces and a modifiers object
   * holding only known names, each with the kind of value its name calls for.
   */
  function ParsedTrigger(triggerString: Option<string>): (r: Option<TriggerDescriptor>)
    ensures r.None? <==> triggerString.None? || triggerString == Some("")
    ensures r.Some? ==> ' ' !in r.value.event
    ensures r.Some? ==> forall k :: k in r.value.modifiers ==>
      (IsFlagName(k) && r.value.modifiers[k] == Flag) || (IsIntervalName(k) && r.value.modifiers[k].Interval?)
  {
    if triggerString.None? || triggerString.value == "" then None
    else
      var parts := Split(triggerString.value, ' ');
      SplitShape(triggerString.value, ' ');
      ModifierKinds(parts[1..]);
      Some(Trigger(parts[0], ModifiersOf(parts[1..])))
  }

  /** `parseTrigger`: split on single spaces, token 0 is the event, the rest fill `modifiers` in order. */
  method ParseTrigger(triggerString: Option<string>) returns (r: Option<TriggerDescriptor>)
    ensures r == ParsedTrigger(triggerString)
  {
    if triggerString.None? || triggerString.value == "" {
      return None;
    }
    var parts := Split(triggerString.value, ' ');
    var event := parts[0];
    var modifiers: Modifiers := map[];
    var index := 1;
    while index < |parts|
      invariant 1 <= index <= |parts|
      invariant modifiers == ApplySettings(Settings(parts[1..index]))
    {
      SettingsSnoc(parts, index);
      var modifier := Trim(parts[index]);
      TokenSettingCases(parts[index]);
      if modifier == "" {
        index := index + 1;
        continue;
      }
      if IsFlagName(modifier) {
        modifiers := modifiers[modifier := Flag];
        index := index + 1;
        continue;
      }
      var complexPart := Split(modifier, ':');
      var name := complexPart[0];
      var value := if |complexPart| > 1 then Some(complexPart[1]) else None;
      if IsIntervalName(name) {
        modifiers := modifiers[name := Interval(ParseInterval(value))];
      }
      index := index + 1;
    }
    assert parts[1..index] == parts[1..];
    assert ModifiersOf(parts[1..]) == modifiers;
    return Some(Trigger(event, modifiers));
  }

  /**
   * A trigger string written as single-space-separated words: the first
   * word is the event and the others are the modifier tokens.
   */
  lemma ParsedWords(words: seq<string>)
    requires |words| >= 1 && words[0] != ""
    requires forall i :: 0 <= i < |words| ==> ' ' !in words[i]
    ensures ParsedTrigger(Some(Join(words, ' '))) == Some(Trigger(words[0], ModifiersOf(words[1..])))
  {
    SplitJoin(words, ' ');
    assert |words| > 1 ==> Join(words, ' ') == words[0] + [' '] + Join(words[1..], ' ');
  }

  /** `parseTrigger` gives `undefined` exactly for `undefined`/`null` and for the empty string. */
  lemma ParsedTriggerUndefined(triggerString: Option<string>)
    ensures ParsedTrigger(triggerString).None? <==> triggerString.None? || triggerString == Some("")
  {
  }

  /**
   * The event is the text before the first space: it holds no space, and
   * the trigger string is the event alone or the event and a space
   * followed by the rest.
   */
  lemma TriggerEvent(s: string)
    requires s != ""
    ensures ParsedTrigger(Some(s)).Some?
    ensures var e := ParsedTrigger(Some(s)).value.event;
      ' ' !in e && (s == e || StartsWith(s, e + " "))
  {
    SplitHead(s, ' ');
  }

  /** Whether a setting writes modifier `k`. */
  predicate SetsKey(setting: Option<(string, ModVal)>, k: string)
  {
    setting.Some? && setting.value.0 == k
  }

  /** A key of the written settings is exactly a name some setting writes. */
  lemma {:induction false} ApplySettingsKeys(settings: seq<Option<(string, ModVal)>>, k: string)
    ensures k in ApplySettings(settings) <==> exists i :: 0 <= i < |settings| && SetsKey(settings[i], k)
  {
    if |settings| > 0 {
      var n := |settings| - 1;
      var init := settings[..n];
      ApplySettingsKeys(init, k);
      assert forall i :: 0 <= i < n ==> init[i] == settings[i];
      if SetsKey(settings[n], k) {
        assert k in ApplySettings(settings);
      } else if exists i :: 0 <= i < |settings| && SetsKey(settings[i], k) {
        var i :| 0 <= i < |settings| && SetsKey(settings[i], k);
        assert SetsKey(init[i], k);
      }
    }
  }

  /** A key's value is the one written by the last setting that writes it. */
  lemma {:induction false} ApplySettingsLast(settings: seq<Option<(string, ModVal)>>, k: string)
    requires k in ApplySettings(settings)
    ensures
      exists i :: 0 <= i < |settings| && SetsKey(settings[i], k)
        && ApplySettings(settings)[k] == settings[i].value.1
        && forall j :: i < j < |settings| ==> !SetsKey(settings[j], k)
  {
    var n := |settings| - 1;
    var init := settings[..n];
    if SetsKey(settings[n], k) {
      assert ApplySettings(settings)[k] == settings[n].value.1;
    } else {
      ApplySettingsLast(init, k);
      var i :| 0 <= i < n && SetsKey(init[i], k)
        && ApplySettings(init)[k] == init[i].value.1
        && forall j :: i < j < n ==> !SetsKey(init[j], k);
      assert forall j :: i < j < n ==> init[j] == settings[j];
      assert SetsKey(settings[i], k) && ApplySettings(settings)[k] == settings[i].value.1;
    }
  }

  /**
   * Written settings, pointwise: `k` is a key exactly when some setting
   * writes it, and its value is the one written by the last such setting.
   */
  lemma ApplySettingsAt(settings: seq<Option<(string, ModVal)>>, k: string)
    ensures k in ApplySettings(settings) <==> exists i :: 0 <= i < |settings| && SetsKey(settings[i], k)
    ensures k in ApplySettings(settings) ==>
      exists i :: 0 <= i < |settings| && SetsKey(settings[i], k)
        && ApplySettings(settings)[k] == settings[i].value.1
        && forall j :: i < j < |settings| ==> !SetsKey(settings[j], k)
  {
    ApplySettingsKeys(settings, k);
    if k in ApplySettings(settings) {
      ApplySettingsLast(settings, k);
    }
  }

  /** Whether token `part` writes modifier `k`. */
  predicate Writes(part: string, k: string)
  {
    SetsKey(TokenSetting(part), k)
  }

  /**
   * The modifiers object, pointwise: `k` is a key exactly when some token
   * writes it, and its value is the one written by the last such token.
   * Tokens that write nothing (empty, unknown, unknown `name:value`)
   * leave the object as it was.
   */
  lemma ModifiersOfAt(parts: seq<string>, k: string)
    ensures k in ModifiersOf(parts) <==> exists i :: 0 <= i < |parts| && Writes(parts[i], k)
    ensures k in ModifiersOf(parts) ==>
      exists i :: 0 <= i < |parts| && Writes(parts[i], k)
        && ModifiersOf(parts)[k] == TokenSetting(parts[i]).value.1
        && forall j :: i < j < |parts| ==> !Writes(parts[j], k)
  {
    ApplySettingsAt(Settings(parts), k);
  }

  /** Every value in a parsed modifiers object has the kind its name calls for: flags are `true`, the rest intervals. */
  lemma ModifierKinds(parts: seq<string>)
    ensures forall k :: k in ModifiersOf(parts) ==>
      (IsFlagName(k) && ModifiersOf(parts)[k] == Flag) || (IsIntervalName(k) && ModifiersOf(parts)[k].Interval?)
  {
    forall k | k in ModifiersOf(parts)
      ensures (IsFlagName(k) && ModifiersOf(parts)[k] == Flag) || (IsIntervalName(k) && ModifiersOf(parts)[k].Interval?)
    {
      ModifiersOfAt(parts, k);
    }
  }

  lemma FlagNameShape(m: string)
    requires IsFlagName(m)
    ensures m != "" && ':' !in m && Trim(m) == m
  {
    TrimUntouched(m);
  }

  lemma IntervalNameShape(m: string)
    requires IsIntervalName(m)
    ensures ':' !in m
  {
  }

  /** A flag token writes `true` under its own name. */
  lemma FlagToken(f: string)
    requires IsFlagName(f)
    ensures TokenSetting(f) == Some((f, Flag))
  {
    FlagNameShape(f);
    TokenSettingCases(f);
  }

  /** A bare token (no colon) that is neither a flag nor an interval name writes nothing, whatever its text. */
  lemma BareUnknownToken(part: string)
    requires ':' !in Trim(part) && !IsFlagName(Trim(part)) && !IsIntervalName(Trim(part))
    ensures TokenSetting(part) == None
  {
    TokenSettingCases(part);
    SplitNoSeparator(Trim(part), ':');
  }

  /**
   * A bare interval name (`delay` with no `:value`) writes an `undefined`
   * interval: `complexPart[1]` does not exist, and `parseInterval(undefined)`
   * is `undefined`.
   */
  lemma BareIntervalName(part: string)
    requires IsIntervalName(Trim(part))
    ensures TokenSetting(part) == Some((Trim(part), Interval(None)))
  {
    var m := Trim(part);
    IntervalNameShape(m);
    TokenSettingCases(part);
    SplitNoSeparator(m, ':');
  }

  /**
   * A `name:value` token with an interval name writes
   * `parseInterval` of the text up to the next colon; anything after a
   * second colon is ignored.
   */
  lemma IntervalToken(name: string, rest: string)
    requires IsIntervalName(name)
    requires Trim(name + ":" + rest) == name + ":" + rest
    ensures TokenSetting(name + ":" + rest) == Some((name, Interval(ParseInterval(Some(Split(rest, ':')[0])))))
  {
    var tok := name + ":" + rest;
    IntervalNameShape(name);
    assert tok == name + [':'] + rest;
    SplitCons(name, ':', rest);
    assert tok[|name|] == ':';
    if IsFlagName(tok) {
      FlagNameShape(tok);
    }
    TokenSettingCases(tok);
    assert TokenSetting(tok) == ComplexSetting(tok);
  }

  /**
   * A `name:value` token with an interval name and a well-formed interval
   * (decimal text of `n`, then a unit) writes `n` in milliseconds.
   */
  lemma IntervalTokenValue(name: string, n: nat, u: string)
    requires IsIntervalName(name) && IsUnit(u)
    ensures TokenSetting(name + ":" + NatToString(n) + u) == Some((name, Interval(Some(n * UnitScale(u)))))
  {
    var v := NatToString(n) + u;
    assert name + ":" + NatToString(n) + u == name + ":" + v;
    var tok := name + ":" + v;
    assert tok[0] == name[0];
    assert tok[|tok| - 1] == u[|u| - 1];
    TrimUntouched(tok);
    IntervalToken(name, v);
    assert ':' !in v;
    SplitNoSeparator(v, ':');
    IntervalOfCanonical(n, u);
  }

  /** A `name:value` token whose name is not an interval modifier writes nothing. */
  lemma UnknownNameToken(name: string, rest: string)
    requires !IsIntervalName(name) && ':' !in name && name != "" && !IsJsWhitespace(name[0])
    requires rest == [] || !IsJsWhitespace(rest[|rest| - 1])
    ensures TokenSetting(name + ":" + rest) == None
  {
    var tok := name + ":" + rest;
    assert tok[0] == name[0];
    assert tok[|tok| - 1] == if rest == [] then ':' else rest[|rest| - 1];
    TrimUntouched(tok);
    assert tok == name + [':'] + rest;
    SplitCons(name, ':', rest);
    assert tok[|name|] == ':';
    if IsFlagName(tok) {
      FlagNameShape(tok);
    }
    TokenSettingCases(tok);
  }
}

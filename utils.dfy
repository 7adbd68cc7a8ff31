/**
 * Attribute access with the `data-` alias, and the time-interval parser.
 * The monolithic engine carries identical copies of the three functions.
 */
module Utils {
  import opened Wrappers
  import opened JsStrings

  /** One attribute of an element, in document order. */
  datatype Attr = Attr(name: string, value: string)

  /** The DOM's `element.getAttribute(name)`: the value of the first attribute so named, or `null`. */
  function GetAttr(attrs: seq<Attr>, name: string): (r: Option<string>)
    ensures r.Some? <==> exists i :: 0 <= i < |attrs| && attrs[i].name == name
    ensures r.Some? ==> exists i :: 0 <= i < |attrs| && attrs[i].name == name && attrs[i].value == r.value
  {
    if |attrs| == 0 then None
    else if attrs[0].name == name then Some(attrs[0].value)
    else
      var r := GetAttr(attrs[1..], name);
      assert forall i :: 1 <= i < |attrs| ==> attrs[1..][i - 1] == attrs[i];
      r
  }

  /** The DOM's `element.hasAttribute(name)`. */
  predicate HasAttr(attrs: seq<Attr>, name: string)
  {
    GetAttr(attrs, name).Some?
  }

  /** JavaScript truthiness of an attribute lookup: present and not the empty string. */
  predicate Truthy(v: Option<string>)
  {
    v.Some? && v.value != ""
  }

  /** `hasAttribute(element, name)`: `name` or its `data-` alias is present, that is, some attribute carries one of the two names. */
  predicate HasAttribute(attrs: seq<Attr>, name: string): (b: bool)
    ensures b <==> exists i :: 0 <= i < |attrs| && (attrs[i].name == name || attrs[i].name == "data-" + name)
  {
    HasAttr(attrs, name) || HasAttr(attrs, "data-" + name)
  }

  /**
   * `getAttribute(element, name)`: `getAttribute(name) || getAttribute("data-" + name)`.
   * The `||` keeps the first lookup only when it is truthy; otherwise the
   * alias's lookup is returned as it is, `null` and `""` included.
   */
  function GetAttribute(attrs: seq<Attr>, name: string): (r: Option<string>)
    ensures r.Some? ==>
      exists i :: 0 <= i < |attrs| && (attrs[i].name == name || attrs[i].name == "data-" + name) && attrs[i].value == r.value
  {
    var plain := GetAttr(attrs, name);
    if Truthy(plain) then plain else GetAttr(attrs, "data-" + name)
  }

  /**
   * What `getAttribute` returns: the plain attribute's value when it is
   * non-empty (so it wins over a non-empty alias); otherwise exactly the
   * alias's lookup.
   */
  lemma GetAttributeCases(attrs: seq<Attr>, name: string)
    ensures Truthy(GetAttr(attrs, name)) ==> GetAttribute(attrs, name) == GetAttr(attrs, name)
    ensures !Truthy(GetAttr(attrs, name)) ==> GetAttribute(attrs, name) == GetAttr(attrs, "data-" + name)
  {
  }

  /**
   * `getAttribute` gives `null` exactly when the alias is absent and the
   * plain attribute is absent or empty: an empty `oyc-x=""` without an
   * alias reads as `null`, not as `""`.
   */
  lemma GetAttributeNull(attrs: seq<Attr>, name: string)
    ensures GetAttribute(attrs, name).None? <==>
      !HasAttr(attrs, "data-" + name) && (GetAttr(attrs, name).None? || GetAttr(attrs, name) == Some(""))
  {
  }

  /** A lookup through the alias is truthy exactly when one of the two attributes is. */
  lemma GetAttributeTruthy(attrs: seq<Attr>, name: string)
    ensures Truthy(GetAttribute(attrs, name)) <==>
      Truthy(GetAttr(attrs, name)) || Truthy(GetAttr(attrs, "data-" + name))
  {
  }

  /** A value `getAttribute` returns comes from an attribute `hasAttribute` sees. */
  lemma GetAttributeHasAttribute(attrs: seq<Attr>, name: string)
    ensures GetAttribute(attrs, name).Some? ==> HasAttribute(attrs, name)
    ensures !HasAttribute(attrs, name) ==> GetAttribute(attrs, name).None?
  {
  }

  /** The element `<b oyc-get="" data-oyc-get="/x">` reads its URL from the alias. */
  lemma EmptyPlainUsesAlias()
    ensures GetAttribute([Attr("oyc-get", ""), Attr("data-oyc-get", "/x")], "oyc-get") == Some("/x")
  {
    var attrs := [Attr("oyc-get", ""), Attr("data-oyc-get", "/x")];
    assert GetAttr(attrs, "oyc-get") == Some("");
    assert ("data-" + "oyc-get") == "data-oyc-get";
    assert attrs[1..][0].name == "data-oyc-get";
    assert GetAttr(attrs, "data-oyc-get") == GetAttr(attrs[1..], "data-oyc-get");
  }

  //
  // Time intervals
  //

  /** The units `parseInterval` knows. */
  predicate IsUnit(u: string)
  {
    u == "ms" || u == "s" || u == "m"
  }

  /** Milliseconds per unit. */
  function UnitScale(u: string): (k: nat)
    requires IsUnit(u)
    ensures k > 0
  {
    if u == "ms" then 1 else if u == "s" then 1000 else 60000
  }

  /**
   * `parseFloat(time)` as far as this model reads it: the value of the
   * leading run of decimal digits, or none when the text does not start
   * with a digit.
   */
  function NumericPrefix(time: string): Option<nat>
  {
    var d := LeadingDigits(time);
    if d == "" then None else Some(DigitsValue(d))
  }

  /** `time.replace(value, "")`: the text left once the first occurrence of the number's decimal text is removed. */
  function UnitOf(time: string, value: nat): string
  {
    ReplaceFirst(time, NatToString(value), "")
  }

  /**
   * `parseInterval(time)`: milliseconds for a number followed by `ms`, `s`
   * or `m`; `undefined` (here `None`) for `undefined` and for every other unit.
   */
  function ParseInterval(time: Option<string>): (r: Option<nat>)
    ensures time.None? ==> r.None?
    ensures r.Some? ==> |time.value| > 0 && IsDigit(time.value[0])
    ensures r.Some? ==> exists u :: IsUnit(u) && r.value == NumericPrefix(time.value).value * UnitScale(u)
  {
    match time
    case None => None
    case Some(s) =>
      match NumericPrefix(s)
      case None => None
      case Some(value) =>
        var unit := UnitOf(s, value);
        assert LeadingDigits(s)[0] == s[0];
        if IsUnit(unit) then Some(value * UnitScale(unit)) else None
  }

  /** The decimal text of any number followed by a unit parses to that number of units. */
  lemma {:induction false} IntervalOfCanonical(n: nat, u: string)
    requires IsUnit(u)
    ensures ParseInterval(Some(NatToString(n) + u)) == Some(n * UnitScale(u))
  {
    var t := NatToString(n);
    var s := t + u;
    LeadingDigitsOfConcat(t, u);
    NatToStringValue(n);
    assert NumericPrefix(s) == Some(n);
    assert OccursAt(s, t, 0);
    assert IndexOf(s, t) == 0;
    assert s[..0] == "" && s[|t|..] == u;
    assert UnitOf(s, n) == u;
  }

  /**
   * The converse: a defined result comes only from the canonical decimal
   * text of a number (no leading zeros, no sign, no fraction) followed by
   * exactly one unit, and is that number scaled by the unit.
   */
  lemma {:induction false} IntervalDefinedOnlyCanonical(s: string)
    requires ParseInterval(Some(s)).Some?
    ensures NumericPrefix(s).Some?
    ensures var n := NumericPrefix(s).value;
      var u := s[|NatToString(n)|..];
      |NatToString(n)| <= |s| && s == NatToString(n) + u && IsUnit(u)
      && ParseInterval(Some(s)) == Some(n * UnitScale(u))
  {
    var n := NumericPrefix(s).value;
    var t := NatToString(n);
    var unit := UnitOf(s, n);
    assert IsUnit(unit);
    UnitStartsWithLetter(unit);
    var d := LeadingDigits(s);
    assert IsDigit(s[0]);
    ReplaceFirstKeepsHead(s, t);
    assert IndexOf(s, t) == 0;
    assert unit == s[|t|..];
    assert s == s[..|t|] + s[|t|..];
  }

  lemma UnitStartsWithLetter(u: string)
    requires IsUnit(u)
    ensures |u| > 0 && !IsDigit(u[0])
  {
  }

  /** `parseInterval(undefined)`, and a text with no leading digit, give `undefined`. */
  lemma IntervalUndefined(s: string)
    requires |s| == 0 || !IsDigit(s[0])
    ensures ParseInterval(None) == None
    ensures ParseInterval(Some(s)) == None
  {
  }

  /** The documented examples in milliseconds: `100ms` is 100 and `0ms` is 0. */
  lemma IntervalExamplesMs()
    ensures ParseInterval(Some("100ms")) == Some(100)
    ensures ParseInterval(Some("0ms")) == Some(0)
  {
    assert NatToString(100) + "ms" == "100ms" && NatToString(0) + "ms" == "0ms" by {
      assert NatToString(100) == "100" && NatToString(0) == "0";
    }
    IntervalOfCanonical(100, "ms");
    IntervalOfCanonical(0, "ms");
  }

  /** The documented examples in seconds and minutes: `1s`, `0s`, `1m`, `0m`. */
  lemma IntervalExamplesSecondsMinutes()
    ensures ParseInterval(Some("1s")) == Some(1000)
    ensures ParseInterval(Some("0s")) == Some(0)
    ensures ParseInterval(Some("1m")) == Some(60000)
    ensures ParseInterval(Some("0m")) == Some(0)
  {
    assert NatToString(1) + "s" == "1s" && NatToString(0) + "s" == "0s" by {
      assert NatToString(1) == "1" && NatToString(0) == "0";
    }
    assert NatToString(1) + "m" == "1m" && NatToString(0) + "m" == "0m" by {
      assert NatToString(1) == "1" && NatToString(0) == "0";
    }
    IntervalOfCanonical(1, "s");
    IntervalOfCanonical(0, "s");
    IntervalOfCanonical(1, "m");
    IntervalOfCanonical(0, "m");
  }

  /**
   * A number followed by any text that does not start with a digit and is
   * not one of the three units (no unit at all, `h`, `ms2`, ...) is not an
   * interval.
   */
  lemma {:induction false} IntervalOfOtherUnit(n: nat, u: string)
    requires u == [] || !IsDigit(u[0])
    requires !IsUnit(u)
    ensures ParseInterval(Some(NatToString(n) + u)) == None
  {
    var t := NatToString(n);
    var s := t + u;
    LeadingDigitsOfConcat(t, u);
    NatToStringValue(n);
    assert NumericPrefix(s) == Some(n);
    assert OccursAt(s, t, 0);
    assert IndexOf(s, t) == 0;
    assert s[..0] == "" && s[|t|..] == u;
    assert UnitOf(s, n) == u;
  }

  /** The documented examples without a known unit: `"100"` and `"1h"` give `undefined`. */
  lemma IntervalExamplesNoUnit()
    ensures ParseInterval(Some("100")) == None
    ensures ParseInterval(Some("1h")) == None
  {
    assert NatToString(100) == "100";
    IntervalOfOtherUnit(100, "");
    assert NatToString(100) + "" == "100";
    assert NatToString(1) == "1";
    IntervalOfOtherUnit(1, "h");
    assert NatToString(1) + "h" == "1h";
  }

  /**
   * Leading zeros: `"007ms"` reads the number 7, removes the first `"7"`
   * and is left with the unit `"00ms"`, so it is `undefined`.
   */
  lemma IntervalLeadingZeros()
    ensures ParseInterval(Some("007ms")) == None
  {
    var s := "007ms";
    assert LeadingDigits(s[3..]) == "";
    assert LeadingDigits(s) == "007";
    assert DigitsValue("0") == 0;
    assert DigitsValue("00") == 0;
    assert DigitsValue("007") == 7;
    assert NatToString(7) == "7";
    assert !OccursAt(s, "7", 0) && !OccursAt(s, "7", 1) && OccursAt(s, "7", 2);
    assert IndexOf(s, "7") == 2;
    assert UnitOf(s, 7) == "00ms";
  }
}

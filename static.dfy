/** The engine's fixed tables: the HTTP methods it knows and the attribute selectors built from them. */
module Static {
  import opened JsStrings

  /** `httpMethods`: the methods an element may carry as `oyc-<method>`, in this order. */
  const HttpMethods: seq<string> := ["get", "post", "put", "patch", "delete", "head"]

  /** `oyc-ignore`: declared, but no code path reads it. */
  const IgnoreAttribute: string := "oyc-ignore"

  /**
   * `names.flatMap((n) => ["[" + prefix + n + "]", "[data-" + prefix + n + "]"])`:
   * each attribute selector immediately followed by its `data-` alias.
   */
  function AttributeSelectors(names: seq<string>, prefix: string): (r: seq<string>)
    ensures |r| == 2 * |names|
    ensures forall i :: 0 <= i < |names| ==>
      r[2 * i] == "[" + prefix + names[i] + "]" && r[2 * i + 1] == "[data-" + prefix + names[i] + "]"
  {
    if |names| == 0 then []
    else
      var rest := AttributeSelectors(names[1..], prefix);
      assert forall i :: 1 <= i < |names| ==> names[1..][i - 1] == names[i];
      ["[" + prefix + names[0] + "]", "[data-" + prefix + names[0] + "]"] + rest
  }

  /**
   * `methodSelector`: splitting it on commas gives back exactly its twelve
   * entries, the list `AttributeSelectors` describes (for method `i`, entry
   * `2i` is `[oyc-<method>]` and entry `2i+1` is its `data-` alias).
   */
  function MethodSelector(): (r: string)
    ensures |Split(r, ',')| == 12 && Split(r, ',') == AttributeSelectors(HttpMethods, "oyc-")
  {
    var sels := AttributeSelectors(HttpMethods, "oyc-");
    MethodSelectorsCommaFree(sels);
    SplitJoin(sels, ',');
    Join(sels, ',')
  }

  /** No method selector holds a comma, so the joined selector splits back into them. */
  lemma MethodSelectorsCommaFree(sels: seq<string>)
    requires sels == AttributeSelectors(HttpMethods, "oyc-")
    ensures forall i :: 0 <= i < |sels| ==> ',' !in sels[i]
  {
    forall i | 0 <= i < |sels| ensures ',' !in sels[i] {
      var m := HttpMethods[i / 2];
      assert ',' !in m;
      if i % 2 == 0 {
        assert sels[i] == "[" + "oyc-" + m + "]";
      } else {
        assert sels[i] == "[data-" + "oyc-" + m + "]";
      }
    }
  }

  /** `oycAttributeSelector` of the split modules: built from `["oyc-trigger"]` with no prefix. */
  function OycAttributeSelector(): string
  {
    Join(AttributeSelectors(["oyc-trigger"], ""), ',')
  }

  /** `oycAttributeSelector` of the monolithic engine: built from `["trigger"]` with the `oyc-` prefix. */
  function LegacyOycAttributeSelector(): string
  {
    Join(AttributeSelectors(["trigger"], "oyc-"), ',')
  }

  /** Both revisions build the same trigger selector. */
  lemma OycAttributeSelectorsAgree()
    ensures OycAttributeSelector() == LegacyOycAttributeSelector() == "[oyc-trigger],[data-oyc-trigger]"
  {
    var plain := AttributeSelectors(["oyc-trigger"], "");
    assert plain[0] == "[" + "" + "oyc-trigger" + "]" == "[oyc-trigger]";
    assert plain[1] == "[data-" + "" + "oyc-trigger" + "]" == "[data-oyc-trigger]";
    assert plain == ["[oyc-trigger]", "[data-oyc-trigger]"];
    var legacy := AttributeSelectors(["trigger"], "oyc-");
    assert legacy[0] == "[" + "oyc-" + "trigger" + "]" == "[oyc-trigger]";
    assert legacy[1] == "[data-" + "oyc-" + "trigger" + "]" == "[data-oyc-trigger]";
    assert legacy == ["[oyc-trigger]", "[data-oyc-trigger]"];
  }
}

/**
 * `processHTTPAttributes` of the split modules: for every verb whose
 * `getAttribute` value is truthy, in `httpMethods` order, one handler that
 * fetches the URL read at that moment is handed to the trigger wiring.
 */
module HttpAttributes {
  import opened Wrappers
  import opened Static
  import opened Utils
  import opened Oyc

  /** The handlers wired for the verbs `ms`: one per truthy verb, with the URL captured. */
  function CapturedHandlers(attrs: seq<Attr>, ms: seq<string>): seq<Handler>
  {
    var tm := TruthyMethods(attrs, ms);
    seq(|tm|, k requires 0 <= k < |tm| => FetchCaptured(tm[k], GetAttribute(attrs, "oyc-" + tm[k]).GetOr("")))
  }

  /** Scanning one more verb adds its captured handler exactly when the verb's value is truthy. */
  lemma CapturedHandlersSnoc(attrs: seq<Attr>, ms: seq<string>, m: string)
    ensures var url := GetAttribute(attrs, "oyc-" + m);
      CapturedHandlers(attrs, ms + [m]) == CapturedHandlers(attrs, ms) +
        (if Truthy(url) then [FetchCaptured(m, url.value)] else [])
  {
    assert (ms + [m])[..|ms|] == ms;
  }

  /** `processHTTPAttributes(element)`: the handlers passed to `parseAndAddTriggerHandler`, in call order. */
  method ProcessHttpAttributes(attrs: seq<Attr>) returns (wired: seq<Handler>)
    ensures wired == CapturedHandlers(attrs, HttpMethods)
  {
    wired := [];
    var index := 0;
    while index < |HttpMethods|
      invariant 0 <= index <= |HttpMethods|
      invariant wired == CapturedHandlers(attrs, HttpMethods[..index])
    {
      var m := HttpMethods[index];
      assert HttpMethods[..index + 1] == HttpMethods[..index] + [m];
      CapturedHandlersSnoc(attrs, HttpMethods[..index], m);
      var url := GetAttribute(attrs, "oyc-" + m);
      if Truthy(url) {
        wired := wired + [FetchCaptured(m, url.value)];
      }
      index := index + 1;
    }
    assert HttpMethods[..index] == HttpMethods;
  }

  /**
   * A captured handler is wired exactly for a verb of `ms` whose `getAttribute`
   * value is non-empty, and it carries that value as its URL.
   */
  lemma CapturedHandlersIff(attrs: seq<Attr>, ms: seq<string>, m: string, url: string)
    ensures FetchCaptured(m, url) in CapturedHandlers(attrs, ms) <==>
      m in ms && url != "" && GetAttribute(attrs, "oyc-" + m) == Some(url)
  {
    TruthyMethodsIff(attrs, ms, m);
    var tm := TruthyMethods(attrs, ms);
    if FetchCaptured(m, url) in CapturedHandlers(attrs, ms) {
      var k :| 0 <= k < |tm| && CapturedHandlers(attrs, ms)[k] == FetchCaptured(m, url);
      assert tm[k] == m && m in tm;
    }
    if m in ms && url != "" && GetAttribute(attrs, "oyc-" + m) == Some(url) {
      var k :| 0 <= k < |tm| && tm[k] == m;
      assert CapturedHandlers(attrs, ms)[k] == FetchCaptured(m, url);
    }
  }

  /** Every handler `processHTTPAttributes` wires fetches the same URL whenever it runs. */
  lemma CapturedUrlIsFixed(attrs: seq<Attr>, later: seq<Attr>, target: nat, k: nat)
    requires k < |CapturedHandlers(attrs, HttpMethods)|
    ensures var h := CapturedHandlers(attrs, HttpMethods)[k];
      FetchOf(h, later, target) == FetchOf(FetchOnFire(h.verb), attrs, target)
  {
    var tm := TruthyMethods(attrs, HttpMethods);
    TruthyMethodsIff(attrs, HttpMethods, tm[k]);
  }
}

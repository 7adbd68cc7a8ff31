/**
 * The monolithic engine's listener wiring: how a parsed trigger becomes a
 * registration on an element, what a registered listener does when its
 * event arrives, which HTTP verbs an element gets a fetch handler for, and
 * the scan of `oyc-on:<event>` attributes.
 *
 * An element is a `class` whose attribute list is read and whose list of
 * registrations (`element.addEventListener` calls) grows; the handlers
 * themselves are values saying what they will do when they run.
 */
module Oyc {
  import opened Wrappers
  import opened JsStrings
  import opened Static
  import opened Utils
  import opened Trigger
  import TriggerExamples

  /** What a registered listener runs. */
  datatype Handler =
    /** `processElement`'s closure: `handleFetch(method, getAttribute(element, "oyc-" + method), event.target)`. */
    | FetchOnFire(verb: string)
    /** `processHTTPAttributes`'s closure: `handleFetch(method, url, event.target)` with `url` read once, up front. */
    | FetchCaptured(verb: string, url: string)
    /** `window[listener]`: a global function named by an `oyc-on:<event>` attribute's value. */
    | Global(name: string)

  /** The function handed to `element.addEventListener`. */
  datatype Listener =
    /** The handler itself. */
    | Direct(handler: Handler)
    /** `listenerWrapper`, closing over the handler and the modifiers object. */
    | Wrapped(handler: Handler, modifiers: Modifiers)

  /** One `element.addEventListener(eventName, listener, options)` call; `None` stands for no third argument. */
  datatype Registration = Registration(event: string, listener: Listener, options: Option<Modifiers>)

  /** What happens when the event reaches a listener. */
  datatype Effect =
    /** The handler runs now. */
    | Invoke(handler: Handler)
    /** `setTimeout(handler, delayMs)`: the handler runs later. */
    | Schedule(delayMs: nat, handler: Handler)
    /** A thrown `Error` with this message; the handler does not run. */
    | Throw(message: string)

  /** A call to `handleFetch(method, url, target)`. */
  datatype FetchCall = FetchCall(verb: string, url: Option<string>, target: nat)

  /** The trigger used when an element has no (truthy) `oyc-trigger`: `click`, modifiers `undefined`. */
  const DefaultEvent: string := "click"

  /** JavaScript truthiness of `modifier[key]`: `true`, or an interval that is defined and not zero. */
  predicate IsSet(m: Modifiers, key: string)
  {
    key in m && (m[key] == Flag || (m[key].Interval? && m[key].ms.Some? && m[key].ms.value != 0))
  }

  /** The delay `setTimeout` applies to `modifier.delay` (a bare `true` converts to 1). */
  function DelayOf(v: ModVal): nat
  {
    match v
    case Flag => 1
    case Interval(ms) => ms.GetOr(0)
  }

  /**
   * `addEventListener(element, eventName, listener, modifier)`: a missing or
   * key-less modifiers object registers the listener itself with no options;
   * any other registers `listenerWrapper` with the modifiers as options.
   */
  function Bind(eventName: string, h: Handler, modifier: Option<Modifiers>): (r: Registration)
    ensures r.event == eventName && r.listener.handler == h
    ensures r.options.Some? ==> r.options == modifier && |r.options.value| > 0
  {
    if modifier.None? || |modifier.value| == 0 then Registration(eventName, Direct(h), None)
    else Registration(eventName, Wrapped(h, modifier.value), modifier)
  }

  /**
   * The listener's run: `listenerWrapper` tests `delay`, then `throttle`,
   * then `debounce`, each by truthiness; when none is set it calls the handler.
   */
  function Fire(l: Listener): (e: Effect)
    ensures l.Direct? ==> e == Invoke(l.handler)
    ensures !e.Throw? ==> e.handler == l.handler
  {
    match l
    case Direct(h) => Invoke(h)
    case Wrapped(h, m) =>
      if IsSet(m, "delay") then Schedule(DelayOf(m["delay"]), h)
      else if IsSet(m, "throttle") then Throw("Throttle is not yet implemented")
      else if IsSet(m, "debounce") then Throw("Debounce is not yet implemented")
      else Invoke(h)
  }

  /** `handleFetch`'s arguments when a fetch handler runs against the element's attributes at that moment. */
  function FetchOf(h: Handler, attrsNow: seq<Attr>, target: nat): (r: Option<FetchCall>)
    ensures r.Some? <==> !h.Global?
    ensures r.Some? ==> r.value.verb == h.verb && r.value.target == target
  {
    match h
    case FetchOnFire(m) => Some(FetchCall(m, GetAttribute(attrsNow, "oyc-" + m), target))
    case FetchCaptured(m, url) => Some(FetchCall(m, Some(url), target))
    case Global(_) => None
  }

  /** `addTriggerHandler(element, listener)`: the element's `oyc-trigger` if it parses, else the default trigger. */
  function TriggerRegistration(attrs: seq<Attr>, h: Handler): (r: Registration)
    ensures r.listener.handler == h
    ensures !Truthy(GetAttribute(attrs, "oyc-trigger")) ==> r == Registration(DefaultEvent, Direct(h), None)
  {
    match ParsedTrigger(GetAttribute(attrs, "oyc-trigger"))
    case Some(t) => Bind(t.event, h, Some(t.modifiers))
    case None => Bind(DefaultEvent, h, None)
  }

  /** The verbs, in `ms`'s order, whose `oyc-<verb>` or `data-oyc-<verb>` attribute is present. */
  function PresentMethods(attrs: seq<Attr>, ms: seq<string>): seq<string>
  {
    if |ms| == 0 then []
    else
      PresentMethods(attrs, ms[..|ms| - 1]) +
      (if HasAttribute(attrs, "oyc-" + ms[|ms| - 1]) then [ms[|ms| - 1]] else [])
  }

  /** Scanning one more verb adds its registration exactly when the verb's attribute is present. */
  lemma MethodRegistrationsSnoc(attrs: seq<Attr>, ms: seq<string>, m: string)
    ensures MethodRegistrations(attrs, ms + [m]) == MethodRegistrations(attrs, ms) +
      (if HasAttribute(attrs, "oyc-" + m) then [TriggerRegistration(attrs, FetchOnFire(m))] else [])
  {
    assert (ms + [m])[..|ms|] == ms;
  }

  /** The verbs, in `ms`'s order, for which `getAttribute(element, "oyc-" + verb)` is truthy. */
  function TruthyMethods(attrs: seq<Attr>, ms: seq<string>): seq<string>
  {
    if |ms| == 0 then []
    else
      TruthyMethods(attrs, ms[..|ms| - 1]) +
      (if Truthy(GetAttribute(attrs, "oyc-" + ms[|ms| - 1])) then [ms[|ms| - 1]] else [])
  }

  /** The registrations `processElement` makes over the verbs `ms`: one per present verb, in order. */
  function MethodRegistrations(attrs: seq<Attr>, ms: seq<string>): seq<Registration>
  {
    var pm := PresentMethods(attrs, ms);
    seq(|pm|, k requires 0 <= k < |pm| => TriggerRegistration(attrs, FetchOnFire(pm[k])))
  }

  /** An attribute whose name starts with `oyc-on:` or `data-oyc-on:`. */
  predicate IsOnAttribute(name: string)
  {
    StartsWith(name, "oyc-on:") || StartsWith(name, "data-oyc-on:")
  }

  /** `name.slice(name.indexOf(":") + 1)`: the text after the first colon. */
  function OnEvent(name: string): string
  {
    var c := IndexOf(name, ":");
    if c < 0 then name else name[c + 1..]
  }

  /** The `oyc-on:` attributes of `scan`, in order. */
  function OnAttrs(scan: seq<Attr>): seq<Attr>
  {
    if |scan| == 0 then []
    else OnAttrs(scan[..|scan| - 1]) + (if IsOnAttribute(scan[|scan| - 1].name) then [scan[|scan| - 1]] else [])
  }

  /**
   * The registration for one `oyc-on:` attribute: a parsed `oyc-trigger`
   * replaces the attribute's own event, otherwise its own event with no
   * modifiers.
   */
  function OnBinding(attrs: seq<Attr>, a: Attr): (r: Registration)
    ensures r.listener.handler == Global(a.value)
    ensures !Truthy(GetAttribute(attrs, "oyc-trigger")) ==> r == Registration(OnEvent(a.name), Direct(Global(a.value)), None)
  {
    match ParsedTrigger(GetAttribute(attrs, "oyc-trigger"))
    case Some(t) => Bind(t.event, Global(a.value), Some(t.modifiers))
    case None => Bind(OnEvent(a.name), Global(a.value), None)
  }

  /** The registrations the scan makes for the `oyc-on:` attributes among `scan`. */
  function OnRegistrations(attrs: seq<Attr>, scan: seq<Attr>): seq<Registration>
  {
    var oa := OnAttrs(scan);
    seq(|oa|, k requires 0 <= k < |oa| => OnBinding(attrs, oa[k]))
  }

  /** One `{ event, listener }` record pushed on `data.onEventHandlers`. */
  datatype OnRecord = OnRecord(event: string, listener: string)

  /** The records the scan pushes for the `oyc-on:` attributes among `scan`. */
  function OnRecords(scan: seq<Attr>): seq<OnRecord>
  {
    var oa := OnAttrs(scan);
    seq(|oa|, k requires 0 <= k < |oa| => OnRecord(OnEvent(oa[k].name), oa[k].value))
  }

  /** Scanning one more attribute appends its registration and record exactly when it is an `oyc-on:` attribute. */
  lemma OnScanStep(attrs: seq<Attr>, scan: seq<Attr>, a: Attr)
    ensures IsOnAttribute(a.name) ==>
      OnRegistrations(attrs, scan + [a]) == OnRegistrations(attrs, scan) + [OnBinding(attrs, a)] &&
      OnRecords(scan + [a]) == OnRecords(scan) + [OnRecord(OnEvent(a.name), a.value)]
    ensures !IsOnAttribute(a.name) ==>
      OnRegistrations(attrs, scan + [a]) == OnRegistrations(attrs, scan) && OnRecords(scan + [a]) == OnRecords(scan)
  {
    assert (scan + [a])[..|scan|] == scan;
    if !IsOnAttribute(a.name) {
      assert OnAttrs(scan + [a]) == OnAttrs(scan) + [];
      assert OnAttrs(scan) + [] == OnAttrs(scan);
    }
  }

  /** `a` is `b` with some elements left out, the rest kept in order. */
  predicate Subsequence<T(==)>(a: seq<T>, b: seq<T>)
    decreases |b|
  {
    |a| == 0 ||
    (|b| > 0 &&
      ((a[|a| - 1] == b[|b| - 1] && Subsequence(a[..|a| - 1], b[..|b| - 1])) || Subsequence(a, b[..|b| - 1])))
  }

  /**
   * The direct registration: a missing or key-less modifiers object gives
   * the handler itself with no options, any other gives the wrapper with the
   * modifiers object as options; the event and the handler are kept.
   */
  lemma BindShape(eventName: string, h: Handler, modifier: Option<Modifiers>)
    ensures var r := Bind(eventName, h, modifier);
      r.event == eventName && r.listener.handler == h &&
      (r.listener.Direct? <==> modifier.None? || |modifier.value| == 0) &&
      (r.listener.Direct? <==> r.options.None?) &&
      (r.listener.Wrapped? ==> r.options == modifier && r.listener.modifiers == modifier.value)
  {
  }

  /**
   * What a registration does when its event arrives: it schedules the
   * handler exactly when `delay` is set, it throws exactly when `delay` is
   * not set and `throttle` or `debounce` is, and otherwise it runs the
   * handler at once. `delay` wins over the other two.
   */
  lemma FireOutcome(eventName: string, h: Handler, modifier: Option<Modifiers>)
    ensures var e := Fire(Bind(eventName, h, modifier).listener);
      var m := modifier.GetOr(map[]);
      (e.Schedule? <==> IsSet(m, "delay")) &&
      (e.Throw? <==> !IsSet(m, "delay") && (IsSet(m, "throttle") || IsSet(m, "debounce"))) &&
      (e.Invoke? <==> !IsSet(m, "delay") && !IsSet(m, "throttle") && !IsSet(m, "debounce")) &&
      (e.Schedule? ==> e.handler == h && e.delayMs == DelayOf(m["delay"]) && e.delayMs > 0) &&
      (e.Invoke? ==> e.handler == h) &&
      (e.Throw? ==> e.message == (if IsSet(m, "throttle") then "Throttle is not yet implemented"
                                  else "Debounce is not yet implemented"))
  {
  }

  /** A zero or unparsable `delay` is falsy: the wrapper behaves as if `delay` were absent. */
  lemma FalsyDelayIgnored(h: Handler, m: Modifiers)
    requires "delay" in m && m["delay"] in {Interval(Some(0)), Interval(None)}
    ensures Fire(Wrapped(h, m)) == Fire(Wrapped(h, m - {"delay"}))
  {
    assert forall k :: IsSet(m - {"delay"}, k) <==> k != "delay" && IsSet(m, k);
  }

  /**
   * Only `delay`, `throttle` and `debounce` change the run: the flags and
   * `poll` are passed to the browser as options and otherwise ignored.
   */
  lemma OtherModifiersIgnored(h: Handler, m: Modifiers)
    requires forall k :: k in m ==> IsFlagName(k) || k == "poll"
    ensures Fire(Wrapped(h, m)) == Invoke(h)
  {
    assert !IsSet(m, "delay") && !IsSet(m, "throttle") && !IsSet(m, "debounce");
  }

  /**
   * A fetch handler from `processElement` reads the URL when it runs,
   * one from `processHTTPAttributes` uses the URL read at wiring time:
   * after the attribute changes the two requests differ.
   */
  lemma LiveAndCapturedUrls(verb: string, before: seq<Attr>, after: seq<Attr>, target: nat)
    requires Truthy(GetAttribute(before, "oyc-" + verb))
    ensures var url := GetAttribute(before, "oyc-" + verb).value;
      FetchOf(FetchCaptured(verb, url), after, target) == Some(FetchCall(verb, Some(url), target)) &&
      FetchOf(FetchOnFire(verb), after, target) == Some(FetchCall(verb, GetAttribute(after, "oyc-" + verb), target)) &&
      FetchOf(FetchOnFire(verb), before, target) == FetchOf(FetchCaptured(verb, url), after, target)
  {
  }

  /** Without a truthy `oyc-trigger`, the handler is registered directly on `click`, with no options. */
  lemma DefaultRegistration(attrs: seq<Attr>, h: Handler)
    requires !Truthy(GetAttribute(attrs, "oyc-trigger"))
    ensures TriggerRegistration(attrs, h) == Registration(DefaultEvent, Direct(h), None)
  {
    ParsedTriggerUndefined(GetAttribute(attrs, "oyc-trigger"));
  }

  /** `oyc-trigger="click"` parses to an empty modifiers object, which registers exactly like the default. */
  lemma ExplicitClickIsDefault(attrs: seq<Attr>, h: Handler)
    requires GetAttribute(attrs, "oyc-trigger") == Some("click")
    ensures TriggerRegistration(attrs, h) == Registration(DefaultEvent, Direct(h), None)
  {
    TriggerExamples.ClickAlone();
  }

  /**
   * A trigger with only flag modifiers (at least one) registers the
   * wrapper on the trigger's event with the flags as options; the wrapper
   * runs the handler at once.
   */
  lemma FlagTriggerRunsAtOnce(attrs: seq<Attr>, h: Handler, t: TriggerDescriptor)
    requires ParsedTrigger(GetAttribute(attrs, "oyc-trigger")) == Some(t)
    requires |t.modifiers| > 0 && forall k :: k in t.modifiers ==> IsFlagName(k)
    ensures var r := TriggerRegistration(attrs, h);
      r == Registration(t.event, Wrapped(h, t.modifiers), Some(t.modifiers)) && Fire(r.listener) == Invoke(h)
  {
    OtherModifiersIgnored(h, t.modifiers);
  }

  /**
   * A trigger whose modifiers (at least one) are flags or bare interval
   * names such as `click delay`: the modifiers object is not empty, so the
   * handler is wrapped, but each bare interval is `undefined` and falsy, so
   * the wrapper calls the handler at once.
   */
  lemma BareIntervalsRunAtOnce(attrs: seq<Attr>, h: Handler, t: TriggerDescriptor)
    requires ParsedTrigger(GetAttribute(attrs, "oyc-trigger")) == Some(t)
    requires |t.modifiers| > 0
    requires forall k :: k in t.modifiers ==> IsFlagName(k) || t.modifiers[k] == Interval(None)
    ensures var r := TriggerRegistration(attrs, h);
      r == Registration(t.event, Wrapped(h, t.modifiers), Some(t.modifiers)) && Fire(r.listener) == Invoke(h)
  {
    var m := t.modifiers;
    assert !IsSet(m, "delay") && !IsSet(m, "throttle") && !IsSet(m, "debounce");
  }

  /** A verb is kept exactly when it is among `ms` and its attribute (or the `data-` alias) is present. */
  lemma {:induction false} PresentMethodsIff(attrs: seq<Attr>, ms: seq<string>, m: string)
    ensures m in PresentMethods(attrs, ms) <==> m in ms && HasAttribute(attrs, "oyc-" + m)
    decreases |ms|
  {
    if |ms| > 0 {
      var n := |ms| - 1;
      PresentMethodsIff(attrs, ms[..n], m);
      assert ms == ms[..n] + [ms[n]];
      assert m in ms <==> m in ms[..n] || m == ms[n];
    }
  }

  /** The present verbs keep `ms`'s order. */
  lemma {:induction false} PresentMethodsInOrder(attrs: seq<Attr>, ms: seq<string>)
    ensures Subsequence(PresentMethods(attrs, ms), ms)
    decreases |ms|
  {
    if |ms| > 0 {
      var n := |ms| - 1;
      PresentMethodsInOrder(attrs, ms[..n]);
      var p := PresentMethods(attrs, ms);
      if HasAttribute(attrs, "oyc-" + ms[n]) {
        assert p[..|p| - 1] == PresentMethods(attrs, ms[..n]);
      } else {
        assert p == PresentMethods(attrs, ms[..n]);
      }
    }
  }

  /** A verb is kept exactly when it is among `ms` and `getAttribute` gives a non-empty value for it. */
  lemma {:induction false} TruthyMethodsIff(attrs: seq<Attr>, ms: seq<string>, m: string)
    ensures m in TruthyMethods(attrs, ms) <==> m in ms && Truthy(GetAttribute(attrs, "oyc-" + m))
    decreases |ms|
  {
    if |ms| > 0 {
      var n := |ms| - 1;
      TruthyMethodsIff(attrs, ms[..n], m);
      assert ms == ms[..n] + [ms[n]];
      assert m in ms <==> m in ms[..n] || m == ms[n];
    }
  }

  /**
   * Every verb `processHTTPAttributes` wires (truthy value) is one
   * `processElement` wires (attribute present), in the same order.
   */
  lemma {:induction false} TruthyWithinPresent(attrs: seq<Attr>, ms: seq<string>)
    ensures Subsequence(TruthyMethods(attrs, ms), PresentMethods(attrs, ms))
    decreases |ms|
  {
    if |ms| > 0 {
      var n := |ms| - 1;
      TruthyWithinPresent(attrs, ms[..n]);
      var t := TruthyMethods(attrs, ms);
      var p := PresentMethods(attrs, ms);
      var x := ms[n];
      GetAttributeHasAttribute(attrs, "oyc-" + x);
      if Truthy(GetAttribute(attrs, "oyc-" + x)) {
        assert t[..|t| - 1] == TruthyMethods(attrs, ms[..n]);
        assert p[..|p| - 1] == PresentMethods(attrs, ms[..n]);
      } else if HasAttribute(attrs, "oyc-" + x) {
        assert p[..|p| - 1] == PresentMethods(attrs, ms[..n]);
        assert t == TruthyMethods(attrs, ms[..n]);
      } else {
        assert t == TruthyMethods(attrs, ms[..n]);
        assert p == PresentMethods(attrs, ms[..n]);
      }
    }
  }

  /**
   * `oyc-get=""` and no `data-oyc-get`: `processElement` still wires a `get` handler (the
   * attribute is present), and when it runs it fetches with URL `null`
   * (the empty value is falsy and there is no `data-oyc-get`).
   */
  lemma EmptyVerbAttribute(attrs: seq<Attr>, target: nat)
    requires GetAttr(attrs, "oyc-get") == Some("") && GetAttr(attrs, "data-oyc-get") == None
    ensures "get" in PresentMethods(attrs, HttpMethods)
    ensures "get" !in TruthyMethods(attrs, HttpMethods)
    ensures FetchOf(FetchOnFire("get"), attrs, target) == Some(FetchCall("get", None, target))
  {
    assert "oyc-" + "get" == "oyc-get" && "data-" + "oyc-get" == "data-oyc-get";
    assert !Truthy(GetAttribute(attrs, "oyc-get")) && HasAttribute(attrs, "oyc-get");
    assert "get" in HttpMethods;
    PresentMethodsIff(attrs, HttpMethods, "get");
    TruthyMethodsIff(attrs, HttpMethods, "get");
  }

  /** The event of `oyc-on:<e>` and of `data-oyc-on:<e>` is `e`, colons in `e` included. */
  lemma OnEventOfPrefixed(e: string)
    ensures IsOnAttribute("oyc-on:" + e) && OnEvent("oyc-on:" + e) == e
    ensures IsOnAttribute("data-oyc-on:" + e) && OnEvent("data-oyc-on:" + e) == e
  {
    var s := "oyc-on:" + e;
    assert s[..7] == "oyc-on:";
    assert OccursAt(s, ":", 6);
    assert forall j :: 0 <= j < 6 ==> !OccursAt(s, ":", j) by {
      forall j | 0 <= j < 6 ensures !OccursAt(s, ":", j) {
        assert s[j..j + 1] == [s[j]];
      }
    }
    assert s[7..] == e;
    var t := "data-oyc-on:" + e;
    assert t[..12] == "data-oyc-on:";
    assert OccursAt(t, ":", 11);
    assert forall j :: 0 <= j < 11 ==> !OccursAt(t, ":", j) by {
      forall j | 0 <= j < 11 ensures !OccursAt(t, ":", j) {
        assert t[j..j + 1] == [t[j]];
      }
    }
    assert t[12..] == e;
  }

  /** An attribute is scanned exactly when it is an `oyc-on:` attribute of `scan`. */
  lemma {:induction false} OnAttrsIff(scan: seq<Attr>, a: Attr)
    ensures a in OnAttrs(scan) <==> a in scan && IsOnAttribute(a.name)
    decreases |scan|
  {
    if |scan| > 0 {
      var n := |scan| - 1;
      OnAttrsIff(scan[..n], a);
      assert scan == scan[..n] + [scan[n]];
      assert a in scan <==> a in scan[..n] || a == scan[n];
    }
  }

  /**
   * The scan's registrations and records match one to one: each
   * registration runs the global its record names, and it is registered on
   * the record's event unless `oyc-trigger` parses, in which case it is
   * registered on the trigger's event instead.
   */
  lemma OnRegistrationsMatchRecords(attrs: seq<Attr>, scan: seq<Attr>)
    ensures |OnRegistrations(attrs, scan)| == |OnRecords(scan)| == |OnAttrs(scan)|
    ensures forall k :: 0 <= k < |OnRecords(scan)| ==>
      var r := OnRegistrations(attrs, scan)[k];
      r.listener.handler == Global(OnRecords(scan)[k].listener) &&
      r.event == (match ParsedTrigger(GetAttribute(attrs, "oyc-trigger"))
                  case Some(t) => t.event
                  case None => OnRecords(scan)[k].event)
  {
  }

  /**
   * With `oyc-trigger="click"`, the handler of an `oyc-on:<e>` attribute is
   * registered directly on `click`, while its record names `e`.
   */
  lemma TriggerOverridesOnEvent(attrs: seq<Attr>, e: string, fn: string)
    requires GetAttribute(attrs, "oyc-trigger") == Some("click")
    ensures OnBinding(attrs, Attr("oyc-on:" + e, fn)) == Registration("click", Direct(Global(fn)), None)
    ensures OnEvent("oyc-on:" + e) == e
  {
    OnEventOfPrefixed(e);
    ExplicitClickIsDefault(attrs, Global(fn));
  }

  /** Without a truthy `oyc-trigger`, the handler of an `oyc-on:<e>` attribute is registered directly on `e`. */
  lemma OnAttributeOwnEvent(attrs: seq<Attr>, e: string, fn: string)
    requires !Truthy(GetAttribute(attrs, "oyc-trigger"))
    ensures OnBinding(attrs, Attr("oyc-on:" + e, fn)) == Registration(e, Direct(Global(fn)), None)
    ensures OnBinding(attrs, Attr("data-oyc-on:" + e, fn)) == Registration(e, Direct(Global(fn)), None)
  {
    OnEventOfPrefixed(e);
    ParsedTriggerUndefined(GetAttribute(attrs, "oyc-trigger"));
  }

  /** The object stored under an element's `oyc-data` property. */
  class DataBag {
    var onEventHandlers: Option<seq<OnRecord>>

    constructor()
      ensures onEventHandlers == None
    {
      onEventHandlers := None;
    }
  }

  /**
   * A DOM element: its attributes, the log of `addEventListener` calls made
   * on it, in call order, and its `oyc-data` property.
   */
  class Element {
    const attributes: seq<Attr>
    var listeners: seq<Registration>
    var oycData: DataBag?

    constructor(attrs: seq<Attr>)
      ensures attributes == attrs && listeners == [] && oycData == null
    {
      attributes := attrs;
      listeners := [];
      oycData := null;
    }

    /** `getData(element)`: `element["oyc-data"] || {}`; a fresh object is returned but not stored. */
    method GetData() returns (d: DataBag)
      ensures oycData != null ==> d == oycData
      ensures oycData == null ==> fresh(d) && d.onEventHandlers == None
    {
      if oycData != null {
        d := oycData;
      } else {
        d := new DataBag();
      }
    }

    /** `addEventListener(element, eventName, listener, modifier)`. */
    method AddEventListener(eventName: string, h: Handler, modifier: Option<Modifiers>)
      modifies this`listeners
      ensures listeners == old(listeners) + [Bind(eventName, h, modifier)]
    {
      if modifier.None? || |modifier.value| == 0 {
        listeners := listeners + [Registration(eventName, Direct(h), None)];
        return;
      }
      listeners := listeners + [Registration(eventName, Wrapped(h, modifier.value), modifier)];
    }

    /** `addTriggerHandler(element, listener)`. */
    method AddTriggerHandler(h: Handler)
      modifies this`listeners
      ensures listeners == old(listeners) + [TriggerRegistration(attributes, h)]
    {
      var trigger := ParseTrigger(GetAttribute(attributes, "oyc-trigger"));
      if trigger.Some? {
        AddEventListener(trigger.value.event, h, Some(trigger.value.modifiers));
      } else {
        AddEventListener(DefaultEvent, h, None);
      }
    }

    /** `processElement(element)`: a trigger handler for every verb whose attribute is present. */
    method ProcessElement()
      modifies this`listeners
      ensures listeners == old(listeners) + MethodRegistrations(attributes, HttpMethods)
    {
      var index := 0;
      while index < |HttpMethods|
        invariant 0 <= index <= |HttpMethods|
        invariant listeners == old(listeners) + MethodRegistrations(attributes, HttpMethods[..index])
      {
        var m := HttpMethods[index];
        assert HttpMethods[..index + 1] == HttpMethods[..index] + [m];
        MethodRegistrationsSnoc(attributes, HttpMethods[..index], m);
        if HasAttribute(attributes, "oyc-" + m) {
          AddTriggerHandler(FetchOnFire(m));
        }
        index := index + 1;
      }
      assert HttpMethods[..index] == HttpMethods;
    }

    /**
     * One element of `addCustomEventListeners`' scan: reset
     * `getData(element).onEventHandlers`, then register `window[value]` for
     * every `oyc-on:<event>` attribute and push its `{ event, listener }` record.
     */
    method AddOnListeners() returns (d: DataBag)
      modifies this`listeners, oycData
      ensures listeners == old(listeners) + OnRegistrations(attributes, attributes)
      ensures d.onEventHandlers == Some(OnRecords(attributes))
      ensures old(oycData) != null ==> d == oycData
      ensures old(oycData) == null ==> fresh(d) && oycData == null
    {
      d := GetData();
      d.onEventHandlers := Some([]);
      var i := 0;
      assert OnRecords(attributes[..i]) == [];
      while i < |attributes|
        invariant 0 <= i <= |attributes|
        invariant listeners == old(listeners) + OnRegistrations(attributes, attributes[..i])
        invariant d.onEventHandlers == Some(OnRecords(attributes[..i]))
        invariant old(oycData) != null ==> d == oycData
        invariant old(oycData) == null ==> fresh(d)
      {
        var a := attributes[i];
        assert attributes[..i + 1] == attributes[..i] + [a];
        OnScanStep(attributes, attributes[..i], a);
        if IsOnAttribute(a.name) {
          var event := OnEvent(a.name);
          var listener := a.value;
          var trigger := ParseTrigger(GetAttribute(attributes, "oyc-trigger"));
          if trigger.Some? {
            AddEventListener(trigger.value.event, Global(listener), Some(trigger.value.modifiers));
          } else {
            AddEventListener(event, Global(listener), None);
          }
          d.onEventHandlers := Some(d.onEventHandlers.value + [OnRecord(event, listener)]);
        }
        i := i + 1;
      }
      assert attributes[..i] == attributes;
    }
  }
}

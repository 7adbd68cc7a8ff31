# oyc — a verified model of the attribute-driven HTML enhancer

oyc adds behaviour to HTML through attributes. Some examples:

- `oyc-get="/url"` (or `data-oyc-get`) makes an element fetch that URL when
  its trigger event fires and swap the response into the page.
- `oyc-trigger="click once delay:100ms"` chooses the event and its modifiers.
- `oyc-on:<event>="fn"` binds a global function to an event.
- The class plugin's `add:cls:100ms,remove:cls:1s&toggle:x:0ms` schedules
  class changes over time.

This project models the logic under the DOM and network calls and proves
what it does:

| file | module | models |
|---|---|---|
| `wrappers.dfy` | `Wrappers` | `Option`, standing for `undefined`/`null` |
| `jsstrings.dfy` | `JsStrings` | the JavaScript string operations the engine relies on: `split` on one character, `join`, `indexOf`, `replace` of the first occurrence, `trim`, decimal digits and `String(n)` |
| `static.dfy` | `Static` | `httpMethods`, `methodSelector` and `oycAttributeSelector`, in both revisions |
| `utils.dfy` | `Utils` | `hasAttribute`/`getAttribute` with the `data-` alias and `||`; `parseInterval` |
| `trigger.dfy` | `Trigger` | `parseTrigger`, a loop that fills the modifiers map, proved equal to a specification function |
| `trigger_examples.dfy` | `TriggerExamples` | the documented trigger strings and what they parse to |
| `oyc.dfy` | `Oyc` | the listener wrapper decision, `addTriggerHandler`, `processElement`, the `oyc-on:` attribute scan and `getData`, over an `Element` class whose registrations grow |
| `httpattributes.dfy` | `HttpAttributes` | `processHTTPAttributes` of the split modules |
| `dom.dfy` | `Dom` | the swap engine `insertBefore`/`swapInnerHTML`/`swapOuterHTML`, over a `Node` class whose `childNodes` list is changed in place |
| `classplugin.dfy` | `ClassPlugin` | `processClassString`: its two loops, the timer schedule they produce, and the class list the timers update |

The repository carries two revisions side by side:

- the monolithic `src/oyc.js`;
- the split modules `src/utils.js`, `src/static.js`, `src/attributes.js` and `src/dom.js`.

`hasAttribute`, `getAttribute` and `parseInterval` are identical in both:
`src/oyc.js:301-315` and `src/oyc.js:322-341` are copies of
`src/utils.js:30-44` and `src/utils.js:51-70`. One Dafny definition models
both copies, and the table cites the `src/utils.js` lines.

Some modelling choices:

- An attribute lookup is `Option<string>`: `None` is `null`.
- JavaScript truthiness of a lookup is `Truthy`: present and not `""`.
- A fetch handler is a `Handler` value saying what it would fetch.
- A registered listener is a `Registration` record of the
  `element.addEventListener(event, listener, options)` call.
- What a listener does when its event arrives is an `Effect`: `Invoke`,
  `Schedule` (a `setTimeout`) or `Throw`.

## Model

| member | source | states |
|---|---|---|
| Utils.HasAttribute | src/utils.js:30-32 | `hasAttribute(e, n)` holds exactly when some attribute is named `n` or `data-n` |
| Utils.GetAttribute | src/utils.js:42-44 | a value that `getAttribute` gives is the value of an attribute named `n` or `data-n` |
| Utils.GetAttributeCases | src/utils.js:42-44 | `getAttribute` gives the plain attribute's value when it is non-empty. Otherwise it gives exactly the `data-` alias's lookup. So the plain name wins when both are non-empty |
| Utils.GetAttributeNull | src/utils.js:42-44 | `getAttribute` is `null` exactly when the alias is absent and the plain attribute is absent or empty |
| Utils.GetAttributeTruthy | src/utils.js:42-44 | the lookup is truthy exactly when the plain attribute or its alias is |
| Utils.GetAttributeHasAttribute | src/utils.js:30-44 | a value from `getAttribute` implies `hasAttribute`; without `hasAttribute` the lookup is `null` |
| Utils.EmptyPlainUsesAlias | src/utils.js:42-44 | with `oyc-get=""` and `data-oyc-get="/x"`, the URL read is `"/x"` |
| Utils.ParseInterval | src/utils.js:51-70 | `undefined` stays `undefined`; a defined result comes from a text that starts with a digit and is its leading number times the scale of some unit |
| Utils.IntervalUndefined | src/utils.js:52-54 | `parseInterval(undefined)` is `undefined`, and so is a text that does not start with a digit |
| Utils.IntervalOfCanonical | src/utils.js:56-66 | the decimal text of `n` followed by `ms`, `s` or `m` parses to `n` times 1, 1000 or 60000 |
| Utils.IntervalDefinedOnlyCanonical | src/utils.js:56-69 | a defined result comes only from a number's canonical decimal text followed by exactly one of the three units, and equals the number times that unit's scale |
| Utils.IntervalOfOtherUnit | src/utils.js:59-69 | a number followed by any other text that is not a unit (empty included) parses to `undefined` |
| Utils.IntervalExamplesMs | test/internals/internals.test.js:10-13 | `"100ms"` is 100 and `"0ms"` is 0 |
| Utils.IntervalExamplesSecondsMinutes | test/utils.test.js:15-23 | `"1s"` is 1000, `"0s"` is 0, `"1m"` is 60000 and `"0m"` is 0 |
| Utils.IntervalExamplesNoUnit | test/utils.test.js:25-31 | `"100"` and `"1h"` are `undefined` |
| Utils.IntervalLeadingZeros | src/utils.js:56-57 | `"007ms"` is `undefined`: the removed text is `"7"`, which leaves the unit `"00ms"` |
| JsStrings.SplitShape | src/oyc.js:390 | `split` gives one piece exactly when the separator is absent, and no piece holds the separator |
| JsStrings.JoinSplit | src/oyc.js:390 | joining the pieces of a split with the same separator gives back the input |
| JsStrings.SplitJoin | src/plugins/class/class.js:11-18 | splitting a join of separator-free pieces gives back the pieces |
| JsStrings.SplitHead | src/oyc.js:390-392 | the first piece is a separator-free prefix of the input, followed by the separator unless it is the whole input |
| JsStrings.IndexOf | src/oyc.js:140 | `indexOf` is -1 or an occurrence, with no occurrence before it |
| JsStrings.TrimStartShape | src/oyc.js:399 | `trimStart` removes only white space, up to a character that is not white space |
| JsStrings.TrimEndShape | src/oyc.js:399 | `trimEnd` removes only white space, back to a character that is not white space |
| JsStrings.TrimEmpty | src/oyc.js:401-403 | a trimmed token is empty exactly when it is all white space |
| JsStrings.NatToStringValue | src/utils.js:57 | the decimal text by which `replace` finds the number reads back as that number |
| JsStrings.LeadingDigitsOfConcat | src/utils.js:56 | the leading digit run of digits followed by a non-digit is those digits |
| Static.AttributeSelectors | src/static.js:3-5 | the flat map has two entries per name: entry `2i` is `[oyc-<name>]` and entry `2i+1` is its `[data-oyc-<name>]` alias |
| Static.MethodSelector | src/static.js:1-5 | `methodSelector` splits on commas into exactly 12 entries, `[oyc-m]` then `[data-oyc-m]` for each of `get, post, put, patch, delete, head` in order |
| Static.OycAttributeSelectorsAgree | src/static.js:9-13 | the split modules' selector (from `["oyc-trigger"]`) and the monolithic one (`src/oyc.js:11-15`, from `["trigger"]` with the prefix added) are both `"[oyc-trigger],[data-oyc-trigger]"` |
| Trigger.ParseTrigger | src/oyc.js:384-436 | the loop's result equals `ParsedTrigger`: `undefined` for a falsy string, else token 0 as the event and the remaining tokens written into the modifiers in order |
| Trigger.ParsedTrigger | src/oyc.js:384-436 | `undefined` exactly for a falsy string; otherwise an event with no space and modifiers whose keys are flag names set to `true` or interval names set to an interval |
| Trigger.ParsedTriggerUndefined | src/oyc.js:385-387 | the result is `undefined` exactly for `undefined`/`null` and `""` |
| Trigger.TriggerEvent | src/oyc.js:390-392 | the event holds no space and is the whole string or the text before its first space |
| Trigger.ParsedWords | src/oyc.js:390-396 | for words joined by single spaces, the event is the first word and the modifiers come from the other words |
| Trigger.TokenSetting | src/oyc.js:399-429 | a token writes nothing, a flag name with `true`, or an interval name with an interval |
| Trigger.TokenSettingCases | src/oyc.js:399-414 | an empty trimmed token writes nothing, a flag writes `true`, and anything else is read as `name:value` |
| Trigger.ModifiersOfSnoc | src/oyc.js:398-430 | each further token overwrites its key in the modifiers or leaves them unchanged |
| Trigger.ModifiersOfAt | src/oyc.js:398-430 | a key is in the modifiers exactly when some token writes it, and its value is the one written by the last such token |
| Trigger.ApplySettingsAt | src/oyc.js:398-430 | the same pointwise last-writer-wins statement for any sequence of writes |
| Trigger.ModifierKinds | src/oyc.js:406-429 | only the four flag names (value `true`) and the four interval names (an interval value) can be keys |
| Trigger.FlagToken | src/oyc.js:406-413 | a bare flag token sets its own name to `true` |
| Trigger.FlagTokens | src/oyc.js:406-413 | tokens that are all flags set exactly those flags, each to `true` |
| Trigger.BareUnknownToken | src/oyc.js:406-429 | a token without a colon that is neither a flag nor an interval name writes nothing, whatever its text |
| Trigger.BareIntervalName | src/oyc.js:417-426 | a bare interval name such as `delay` writes its name with an `undefined` interval, since the missing value parses to `undefined` |
| Trigger.IntervalToken | src/oyc.js:417-428 | `name:value` with an interval name writes `parseInterval` of the text up to the second colon; the rest is ignored |
| Trigger.IntervalTokenValue | src/oyc.js:417-428 | `name:<n><unit>` writes `n` in milliseconds |
| Trigger.UnknownNameToken | src/oyc.js:417-429 | `name:value` with any other name writes nothing |
| TriggerExamples.ClickAlone | test/utils.test.js:39-44 | `"click"` parses to event `click` with no modifiers |
| TriggerExamples.ClickWithBareDelay | src/oyc.js:417-426 | `"click delay"` parses to event `click` with `delay` set to `undefined` |
| TriggerExamples.ClickWithFlags | test/utils.test.js:46-56 | `"click once prevent capture passive"` sets the four flags |
| TriggerExamples.IntervalPair | src/oyc.js:417-428 | an event followed by two different interval modifiers sets both, in milliseconds |
| TriggerExamples.ScrollWithIntervals | test/utils.test.js:58-66 | `"scroll throttle:100ms debounce:200ms"` gives throttle 100 and debounce 200 |
| TriggerExamples.ClickWithEmptyToken | test/utils.test.js:68-76 | the empty token between two spaces is skipped |
| TriggerExamples.UnknownToken | src/oyc.js:406-429 | the bare token `unknown` writes nothing |
| TriggerExamples.ClickWithUnknownToken | test/utils.test.js:78-86 | `"click once unknown passive"` sets only `once` and `passive` |
| TriggerExamples.InvalidToken | src/oyc.js:417-429 | `invalid:100ms` writes nothing |
| TriggerExamples.ClickWithInvalidModifier | test/utils.test.js:88-93 | `"click invalid:100ms"` has no modifiers |
| Oyc.Bind | src/oyc.js:189-213 | the registration keeps the event and the handler; it carries options only when they are the caller's non-empty modifiers |
| Oyc.Fire | src/oyc.js:190-211 | a directly registered handler runs at once; whatever does not throw concerns the registered handler |
| Oyc.FetchOf | src/oyc.js:112-115 | exactly the fetch handlers make a request, with their own verb and the element as target |
| Oyc.TriggerRegistration | src/oyc.js:92-104 | registers the given handler; without a truthy `oyc-trigger` it is registered directly on `click` with no options |
| Oyc.OnBinding | src/oyc.js:149-159 | the registration runs the global the attribute names; without a truthy `oyc-trigger` it is registered directly on the attribute's own event |
| Oyc.BindShape | src/oyc.js:189-213 | a missing or key-less modifiers object registers the handler itself with no options; any other registers the wrapper with the modifiers as options. Event and handler are kept |
| Oyc.FireOutcome | src/oyc.js:196-211 | firing schedules the handler exactly when `delay` is truthy, with that delay (positive). It throws exactly when `delay` is falsy and `throttle` or `debounce` is truthy, with throttle's message first. Otherwise it runs the handler at once |
| Oyc.FalsyDelayIgnored | src/oyc.js:197 | a zero or `undefined` delay behaves as if `delay` were not there |
| Oyc.OtherModifiersIgnored | src/oyc.js:196-211 | a wrapper that has only flags and `poll` runs the handler at once |
| Oyc.DefaultRegistration | src/oyc.js:92-104 | without a truthy `oyc-trigger`, the handler is registered directly on `click` with no options (the default trigger of `src/oyc.js:17-20`) |
| Oyc.ExplicitClickIsDefault | src/oyc.js:92-104 | `oyc-trigger="click"` registers exactly as the default does |
| Oyc.FlagTriggerRunsAtOnce | src/oyc.js:92-95 | a parsed trigger with only flag modifiers registers the wrapper on its event with the flags as options, and the wrapper runs the handler at once |
| Oyc.BareIntervalsRunAtOnce | src/oyc.js:92-95 | a parsed trigger whose modifiers (at least one) are flags or `undefined` intervals, such as `"click delay"`, registers the wrapper with those options, and the wrapper runs the handler at once |
| Oyc.LiveAndCapturedUrls | src/oyc.js:112-115 | `processElement`'s handler reads the URL when it runs; the handler of `src/attributes.js:10-17` fetches the URL read at wiring time |
| Oyc.PresentMethodsIff | src/oyc.js:107-108 | a verb gets a handler exactly when it is an HTTP method whose attribute or `data-` alias is present |
| Oyc.PresentMethodsInOrder | src/oyc.js:107-108 | the handled verbs keep the order of `httpMethods` |
| Oyc.EmptyVerbAttribute | src/oyc.js:108-114 | `oyc-get=""` with no alias still gets a `get` handler, which fetches the URL `null`; `processHTTPAttributes` gives it none |
| Oyc.OnEventOfPrefixed | src/oyc.js:136-140 | `oyc-on:e` and `data-oyc-on:e` are scanned and bind to event `e`, colons in `e` included |
| Oyc.OnAttrsIff | src/oyc.js:134-139 | an attribute is scanned exactly when its name starts with `oyc-on:` or `data-oyc-on:` |
| Oyc.OnScanStep | src/oyc.js:134-164 | each scanned attribute adds one registration and one record when it is an on-attribute, and nothing otherwise |
| Oyc.OnRegistrationsMatchRecords | src/oyc.js:149-163 | the registrations and the records match one to one. Each registration runs the global its record names, on the trigger's event if `oyc-trigger` parses, else on the record's event |
| Oyc.TriggerOverridesOnEvent | src/oyc.js:149-156 | with `oyc-trigger="click"`, `oyc-on:e` registers on `click` while its record says `e` |
| Oyc.OnAttributeOwnEvent | src/oyc.js:157-159 | without a truthy `oyc-trigger`, `oyc-on:e` registers directly on `e` |
| Oyc.Element.GetData | src/oyc.js:255-260 | returns the stored bag if there is one, else a fresh empty one |
| Oyc.Element.AddEventListener | src/oyc.js:189-213 | appends exactly the registration `Bind` describes and nothing else |
| Oyc.Element.AddTriggerHandler | src/oyc.js:92-104 | appends one registration, on the parsed trigger or the default one |
| Oyc.Element.ProcessElement | src/oyc.js:106-120 | appends one trigger registration per present verb, in `httpMethods` order, and nothing else |
| Oyc.Element.AddOnListeners | src/oyc.js:130-165 | appends the registrations of the element's on-attributes in order. The bag it returns holds their records. A fresh bag is never stored on the element |
| HttpAttributes.ProcessHttpAttributes | src/attributes.js:8-27 | the loop wires exactly the captured handlers of the truthy verbs, in `httpMethods` order |
| HttpAttributes.CapturedHandlersIff | src/attributes.js:9-12 | a handler for verb `m` with URL `u` is wired exactly when `m` is an HTTP method and `getAttribute` gives the non-empty `u` |
| HttpAttributes.CapturedUrlIsFixed | src/attributes.js:10-23 | every wired handler fetches, whenever it runs, what a live read of its attribute gave at wiring time |
| Oyc.TruthyMethodsIff | src/attributes.js:10-11 | a verb is wired exactly when it is an HTTP method and its `getAttribute` value is non-empty |
| Oyc.TruthyWithinPresent | src/attributes.js:10-11 | the verbs `processHTTPAttributes` wires are a subsequence of those `processElement` wires |
| Dom.InsertChild | src/dom.js:41 | `parent.insertBefore(child, ref)` puts the child right before `ref`, or at the end when `ref` is null |
| Dom.RemoveChild | src/dom.js:90-92 | `removeChild` takes out exactly that child |
| Dom.CallsShape | src/dom.js:42-48 | `onProcess` runs once per element node, in insertion order. Each call sees its own node attached and the parent's other children still attached |
| Dom.InsertFragmentBefore | src/dom.js:38-50 | drains the fragment and places its nodes, in order, right before the reference node (at the end when it is null). The callbacks are those `CallsShape` describes |
| Dom.SwapInnerHtml | src/dom.js:77-95 | the target's children become exactly the fragment's nodes and the fragment is drained. Each callback happens while the old children are still attached. An empty target only appends |
| Dom.OuterSwappedAsWritten | src/dom.js:60-68 | the as-written outer swap's children: one fewer than before plus the fragment, the fragment starting one place before the target, or at the end when the target is first |
| Dom.OuterSwapped | src/dom.js:60-68 | the in-place outer swap's children: the fragment at the target's position, every other child before or after it in its old order |
| Dom.OuterSwapMisplaces | src/dom.js:60-68 | the as-written outer swap agrees with replace-in-place exactly when the fragment is empty or the target is an only child |
| Dom.OuterSwapCounterexample | src/dom.js:62-63 | `[a, target]` with `[x]` becomes `[x, a]`, not `[a, x]`. `[target, b]` with `[x]` becomes `[b, x]`, not `[x, b]` |
| Dom.OuterSwapEmptyFragment | src/dom.js:60-68 | with an empty fragment both versions only remove the target |
| Dom.OuterSwapKeepsNodes | src/dom.js:62-67 | both versions keep every other child, the same nodes, and add the fragment's nodes |
| Dom.SwapOuterHtmlAsWritten | src/dom.js:60-68 | inserts before the previous sibling (appends when the target is first), then removes the target |
| Dom.SwapOuterHtml | src/dom.js:60-68 | the corrected swap: the fragment's nodes take the target's place |
| ClassPlugin.ParseOp | src/plugins/class/class.js:18-19 | an operation with no colon lacks its delay field; a parsed action and class hold no colon (`OneColonThrows` covers the one-colon form) |
| ClassPlugin.RunSchedule | src/plugins/class/class.js:14-30 | a run schedules at most one timer per operation, and exactly one per operation when it does not throw |
| ClassPlugin.ClassSchedule | src/plugins/class/class.js:10-32 | a class string without `&` is a single run scheduled from 0 |
| ClassPlugin.ScheduleRun | src/plugins/class/class.js:14-30 | the inner loop's timers, throw flag and `totalDelay` equal `RunSchedule` of the run's parsed operations |
| ClassPlugin.ProcessClassString | src/plugins/class/class.js:10-32 | the two loops schedule exactly `ClassSchedule(classString)` |
| ClassPlugin.RunThrewStays | src/plugins/class/class.js:17-19 | once a run has thrown, later operations change nothing |
| ClassPlugin.RunsThrewStays | src/plugins/class/class.js:13-19 | once a run has thrown, later runs are not scheduled |
| ClassPlugin.RunTimesArePrefixSums | src/plugins/class/class.js:15-21 | in a run of timed operations, timer `k` fires at the sum of delays `0..k` with the operation's action and class |
| ClassPlugin.OneTimerPerOperation | src/plugins/class/class.js:17-29 | a run whose operations all have a delay field schedules exactly one timer per operation and does not throw |
| ClassPlugin.UnparsedDelayPoisonsRun | src/plugins/class/class.js:19 | a delay that does not parse makes `totalDelay` `NaN`, so every later timer in the run fires at 0 |
| ClassPlugin.OneColonThrows | src/plugins/class/class.js:18-19 | `action:className` with no delay field parses to a missing delay, the default number `0` that `parseInterval` cannot read |
| ClassPlugin.OneColonScheduleThrows | src/plugins/class/class.js:10-19 | a class string that is one `action:className` operation throws and schedules no timer |
| ClassPlugin.AddWithoutDelayThrows | src/plugins/class/class.js:8-19 | `"add:testClass"`, a form the comment allows, schedules nothing and throws |
| ClassPlugin.ParseOpOptionalDelay | src/plugins/class/class.js:8 | the parse the comment describes agrees with the code whenever all three fields are given |
| ClassPlugin.OneColonRunsAtZero | src/plugins/class/class.js:8 | with the delay optional, `action:className` parses to delay 0 and schedules one timer at 0 without throwing |
| ClassPlugin.ThrowsAtMissingDelay | src/plugins/class/class.js:18-19 | the first operation without a delay field throws; the timers before it stay scheduled |
| ClassPlugin.RunsIndependent | src/plugins/class/class.js:13-15 | each run starts again from 0: a schedule is the first runs' timers followed by the other runs' own timers |
| ClassPlugin.Applied | src/plugins/class/class.js:22-28 | a timer leaves every other class alone; `add` leaves its class present and `remove` leaves it absent |
| ClassPlugin.AppliedMembership | src/plugins/class/class.js:22-28 | a timer touches only its class: `add` inserts it, `remove` deletes it, `toggle` flips it, and any other action keeps it |
| ClassPlugin.ClassList.Fire | src/plugins/class/class.js:21-29 | the timer callback updates the class list as `Applied` says |
| ClassPlugin.FireOrder | src/plugins/class/class.js:21-29 | the firing order holds as many timers as were scheduled |
| ClassPlugin.ClassesAt | src/plugins/class/class.js:21-29 | at any moment, a class that no timer names has the membership it had before |
| ClassPlugin.InsertByTimeBound | src/plugins/class/class.js:21-29 | queueing a timer keeps every queued time within a bound |
| ClassPlugin.InsertByTimeSorted | src/plugins/class/class.js:21-29 | queueing a timer keeps the queue ordered by time |
| ClassPlugin.InsertByTimeAdds | src/plugins/class/class.js:21-29 | queueing adds exactly that timer |
| ClassPlugin.FireOrderSorted | src/plugins/class/class.js:21-29 | the firing order is sorted by time and is a permutation of the scheduled timers |
| ClassPlugin.SingleOperation | src/plugins/class/class.js:11-21 | a single `action:class:delay` schedules one timer at the parsed delay (0 if it does not parse) |
| ClassPlugin.AddAfterHundredSchedule | test/plugins/class/class.test.js:27-37 | `"add:testClass:100ms"` schedules one `add testClass` timer at 100 ms |
| ClassPlugin.AddAfterHundredEffect | test/plugins/class/class.test.js:27-37 | an element without `testClass` still lacks it after 1 ms and has it after 101 ms |

## Left out

- `parseHTML` (`src/dom.js:10-26`) needs the browser's `DOMParser`. The swap functions take the parsed fragment as a `Node` whose children are given.
- `handleFetch` (`src/fetch.js`, `src/oyc.js:70-81`) is network I/O. A handler is a value, and the fetch it would make is the `FetchCall` record from `FetchOf`. `src/fetch.js:11` calls `swapInnerHTML` without an `onProcess` argument. That call is not part of this model. As written it throws a `TypeError` at the first element node of the response, right after inserting it. The fragment is then partly drained and the target's old children are still in place.
- The readiness logic of the `Oyc` class (`src/oyc.js:24-66`) listens for `readystatechange`.
- `processElementAndChildren` (`src/oyc.js:231-248`) is not modelled. Neither are `findElementsToProcess` and `findOnElements` (`src/oyc.js:262-291`, `src/utils.js:6-20`), which rely on `querySelectorAll` and XPath. The scan is modelled for one element (`Oyc.Element.AddOnListeners`).
- `removeCustomEventListeners` (`src/oyc.js:169-180`) reads the undefined names `handler` and `onHandlers`. It can do nothing anyway, since `getData` never stores a bag.
- `window[listener]` is kept as the global's name (`Global(name)`); the name is not looked up.
- HttpAttributes.ProcessHttpAttributes: `src/attributes.js:3` imports `parseAndAddTriggerHandler` and `getAttribute` from `src/utils.js`, but `src/utils.js` exports no `parseAndAddTriggerHandler`, so `src/attributes.js` cannot be linked as written. The model therefore returns the handlers the loop would pass, in call order, rather than registering them.
- The tests import a `parseTrigger` from `src/utils.js` (`test/utils.test.js:1`) and call `registerExtension` (`test/plugins/class/class.test.js:20`). Neither is defined in the sources; `parseTrigger` is modelled from `src/oyc.js`.
- `oyc-ignore` (`src/static.js:7`) is declared but never read; it is a constant only.
- Timers are records, not clocks: `setTimeout` becomes a `Schedule` effect or a `Timer` with its delay. The firing order of timers is modelled by `FireOrder` and the class list at a given moment by `ClassesAt`.
- Utils.IntervalDefinedOnlyCanonical: `parseInterval` reads only the leading decimal digits as a natural number. Fractions and exponents (`"1.5s"`, `"1e3ms"`) come from floating-point `parseFloat` and are not modelled. `NaN` and `undefined` are both `None`.
- Utils.IntervalUndefined: `parseInterval` on text that does not start with a digit gives `None` in the model. The source accepts two such forms through `parseFloat`: a minus sign (`"-5ms"` gives -5) and `Infinity` (`"Infinityms"`). A leading `+` or white space gives `undefined` in both.
- Utils.ParseInterval: numbers are unbounded naturals, while `parseFloat` gives a 64-bit float. Most values above 2^53 round to another float, so `String(value)` no longer matches the digits, `replace` leaves them in the unit and the source gives `undefined`. From 10^21 on `String` uses exponent notation, with the same result. Values the float holds exactly, such as 2^54, still parse. A product by 1000 or 60000 above 2^53 rounds. The model is exact in all these cases.
- Utils.IntervalOfCanonical: holds in the source only for numbers up to 2^53 whose scaled value also stays within 2^53; the model states it for every natural number.
- Trigger.IntervalTokenValue: the same 2^53 bound applies to `name:<n><unit>`, which the model states for every `n`.
- Oyc.Fire: the `Schedule` delay is unbounded. Browsers store a `setTimeout` delay as a 32-bit signed integer, so a delay of 2^31 ms or more fires at once; that clamping is not modelled.
- ClassPlugin.FireOrder: orders timers by their unbounded delay. A `totalDelay` of 2^31 ms or more fires at once in a browser and so would come earlier; `totalDelay` is also a float sum, exact only up to 2^53.
- ClassPlugin.FireOrderSorted: sorted by the unbounded delay, under the same 32-bit `setTimeout` limit left out for `ClassPlugin.FireOrder`.
- Oyc.Element.AddEventListener: the model logs every `addEventListener` call. The DOM ignores a second call with the same event, the same listener function and the same capture flag. Most listeners are fresh closures, but a direct registration of one global (`oyc-on:e="f"` next to `data-oyc-on:e="f"`, say) can repeat, and `listeners` then holds an entry the browser keeps only once.
- The swap functions require a parent that holds the target. The fragment's nodes must be distinct from the parent's children, and the parent's children from each other. A detached target (`parentElement` null) and nodes moved in from other parents are not modelled.
- Dom.InsertFragmentBefore: a callback records the node and the parent's children at the moment of the call. What the callback does to the tree is not modelled.
- `classList` token validation is not modelled: an empty or space-containing class name would throw when its timer fires.
- The class plugin's missing delay field is modelled as the error the source raises there (`MissingDelay`, `threw`), not as a precondition. `parseInterval` receives the number `0` and calls `replace` on it, which throws. The schedule functions follow this as-written parse, since the code, not its comment, is what runs. The optional delay the comment describes is `ParseOpOptionalDelay`, proved for one operation (`OneColonRunsAtZero`) and against `ParseOp`, and not carried through `ClassSchedule`.
- The `console.warn` in `parseInterval` and the `console.log` at `src/plugins/class/class.js:34` are output only.
- Modifier `from:<selector>`, which the comment at `src/oyc.js:376` lists, is never parsed by the code. The model follows the code and drops it like any unknown name.

## Findings

| source | as written | input that shows it | evidently intended | confidence | as-written member | corrected member |
|---|---|---|---|---|---|---|
| src/dom.js:62-63 | `swapOuterHTML` inserts the new nodes before the target's previous sibling; when the target is the first child, the previous sibling is null and the nodes are appended at the end of the parent | parent children `[a, target]`, fragment `[x]`: result `[x, a]`; parent children `[target, b]`, fragment `[x]`: result `[b, x]` | the new nodes take the target's place: `[a, x]` and `[x, b]` | not executed | Dom.SwapOuterHtmlAsWritten (with Dom.OuterSwapCounterexample and Dom.OuterSwapMisplaces) | Dom.SwapOuterHtml |
| src/plugins/class/class.js:8-19 | the comment calls the delay optional, but a missing delay field defaults to the number `0`, and `parseInterval` calls `replace` on that number, which throws | class string `"add:testClass"`: nothing is scheduled and the call throws | the delay is optional, and a missing one schedules the operation at once (delay 0) | not executed | ClassPlugin.ParseOp (with ClassPlugin.OneColonThrows, ClassPlugin.AddWithoutDelayThrows and ClassPlugin.ThrowsAtMissingDelay) | ClassPlugin.ParseOpOptionalDelay (with ClassPlugin.OneColonRunsAtZero) |

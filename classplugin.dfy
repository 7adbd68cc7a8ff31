/**
 * The class plugin's `processClassString`: a `&`-separated list of runs,
 * each a `,`-separated list of `action:className:delay` operations. Within
 * a run the delays add up, and every operation schedules one timer that
 * adds, removes or toggles a class on the element when it fires. Timers
 * are scheduled records; the class list is a `class` the timers update.
 */
module ClassPlugin {
  import opened Wrappers
  import opened JsStrings
  import opened Utils

  /** One `setTimeout` call: at `time` milliseconds, apply `action` to `className`. */
  datatype Timer = Timer(time: nat, action: string, className: string)

  /**
   * One operation after `operations[j].split(':')` and `parseInterval`:
   * fewer than three fields leave `delay` at its default `0`, a number.
   */
  datatype ParsedOp = MissingDelay | Op(action: string, className: string, delay: Option<nat>)

  /** The timers scheduled, and whether the call threw before finishing. */
  datatype Schedule = Schedule(timers: seq<Timer>, threw: bool)

  /** Part-way through one run: the timers so far, whether it threw, and `totalDelay` (`None` is `NaN`). */
  datatype RunState = RunState(timers: seq<Timer>, threw: bool, total: Option<nat>)

  /** `totalDelay += parseInterval(delay)`: `NaN` (and `undefined`) poison the sum for good. */
  function AddDelay(total: Option<nat>, d: Option<nat>): Option<nat>
  {
    if total.Some? && d.Some? then Some(total.value + d.value) else None
  }

  /** The delay `setTimeout` uses for `totalDelay`: `NaN` counts as 0. */
  function TimerDelay(total: Option<nat>): nat
  {
    total.GetOr(0)
  }

  /** `const [action, className, delay = 0] = op.split(':')` and `parseInterval(delay)`. */
  function ParseOp(op: string): (r: ParsedOp)
    ensures ':' !in op ==> r.MissingDelay?
    ensures r.Op? ==> ':' !in r.action && ':' !in r.className
  {
    var fields := Split(op, ':');
    SplitShape(op, ':');
    if |fields| < 3 then MissingDelay else Op(fields[0], fields[1], ParseInterval(Some(fields[2])))
  }

  /** Every operation of a run, parsed. */
  function ParseOps(operations: seq<string>): seq<ParsedOp>
  {
    seq(|operations|, i requires 0 <= i < |operations| => ParseOp(operations[i]))
  }

  /** `classString.split('&')`, each run split on `,` and parsed. */
  function ParseClassString(classString: string): seq<seq<ParsedOp>>
  {
    var runs := Split(classString, '&');
    seq(|runs|, i requires 0 <= i < |runs| => ParseOps(Split(runs[i], ',')))
  }

  /**
   * The inner loop over the operations of one run. An operation without a
   * delay field throws: `parseInterval` calls `replace` on the number `0`.
   */
  function RunSchedule(ops: seq<ParsedOp>): (r: RunState)
    ensures |r.timers| <= |ops|
    ensures !r.threw ==> |r.timers| == |ops|
  {
    if |ops| == 0 then RunState([], false, Some(0))
    else
      var prev := RunSchedule(ops[..|ops| - 1]);
      var op := ops[|ops| - 1];
      if prev.threw then prev
      else if op.MissingDelay? then RunState(prev.timers, true, prev.total)
      else
        var total := AddDelay(prev.total, op.delay);
        RunState(prev.timers + [Timer(TimerDelay(total), op.action, op.className)], false, total)
  }

  /** The outer loop over the runs: each run starts again from `totalDelay = 0`; a throw stops everything. */
  function RunsSchedule(runs: seq<seq<ParsedOp>>): Schedule
  {
    if |runs| == 0 then Schedule([], false)
    else
      var prev := RunsSchedule(runs[..|runs| - 1]);
      if prev.threw then prev
      else
        var r := RunSchedule(runs[|runs| - 1]);
        Schedule(prev.timers + r.timers, r.threw)
  }

  /** What `processClassString(element, classString)` schedules; a string without `&` is a single run. */
  function ClassSchedule(classString: string): (r: Schedule)
    ensures '&' !in classString ==>
      var run := RunSchedule(ParseOps(Split(classString, ','))); r == Schedule(run.timers, run.threw)
  {
    SingleRun(classString);
    RunsSchedule(ParseClassString(classString))
  }

  /** Once a run has thrown, later operations change nothing. */
  lemma {:induction false} RunThrewStays(ops: seq<ParsedOp>, k: nat)
    requires k <= |ops| && RunSchedule(ops[..k]).threw
    ensures RunSchedule(ops) == RunSchedule(ops[..k])
    decreases |ops| - k
  {
    if k < |ops| {
      assert ops[..k + 1][..k] == ops[..k];
      RunThrewStays(ops, k + 1);
    } else {
      assert ops[..k] == ops;
    }
  }

  /** Once a run has thrown, later runs change nothing. */
  lemma {:induction false} RunsThrewStays(runs: seq<seq<ParsedOp>>, k: nat)
    requires k <= |runs| && RunsSchedule(runs[..k]).threw
    ensures RunsSchedule(runs) == RunsSchedule(runs[..k])
    decreases |runs| - k
  {
    if k < |runs| {
      assert runs[..k + 1][..k] == runs[..k];
      RunsThrewStays(runs, k + 1);
    } else {
      assert runs[..k] == runs;
    }
  }

  /** The inner loop of `processClassString`: the timers one run schedules, whether it threw, and the final `totalDelay`. */
  method ScheduleRun(operations: seq<string>) returns (timers: seq<Timer>, threw: bool, totalDelay: Option<nat>)
    ensures RunState(timers, threw, totalDelay) == RunSchedule(ParseOps(operations))
  {
    timers := [];
    threw := false;
    totalDelay := Some(0);
    var j := 0;
    assert ParseOps(operations[..0]) == [];
    while j < |operations|
      invariant 0 <= j <= |operations|
      invariant RunSchedule(ParseOps(operations[..j])) == RunState(timers, false, totalDelay)
    {
      var stepTimers, stepThrew, stepTotal := ScheduleOperation(operations, j, timers, totalDelay);
      if stepThrew {
        ParseOpsPrefix(operations, j + 1);
        RunThrewStays(ParseOps(operations), j + 1);
        timers, threw, totalDelay := stepTimers, true, stepTotal;
        return;
      }
      timers, totalDelay := stepTimers, stepTotal;
      j := j + 1;
    }
    assert operations[..j] == operations;
  }

  /**
   * One turn of the inner loop: `operations[j].split(':')`, then either the
   * throw of a missing delay field or `totalDelay += parseInterval(delay)`
   * and one `setTimeout`.
   */
  method ScheduleOperation(operations: seq<string>, j: nat, timers: seq<Timer>, totalDelay: Option<nat>)
    returns (newTimers: seq<Timer>, threw: bool, newTotal: Option<nat>)
    requires j < |operations|
    requires RunSchedule(ParseOps(operations[..j])) == RunState(timers, false, totalDelay)
    ensures RunSchedule(ParseOps(operations[..j + 1])) == RunState(newTimers, threw, newTotal)
  {
    var fields := Split(operations[j], ':');
    ParseOpsSnoc(operations, j);
    RunScheduleSnoc(ParseOps(operations[..j]), ParseOp(operations[j]));
    if |fields| < 3 {
      return timers, true, totalDelay;
    }
    var action, className, delay := fields[0], fields[1], fields[2];
    newTotal := AddDelay(totalDelay, ParseInterval(Some(delay)));
    newTimers := timers + [Timer(TimerDelay(newTotal), action, className)];
    threw := false;
  }

  /** The parse of a prefix is the prefix of the parse. */
  lemma ParseOpsPrefix(operations: seq<string>, k: nat)
    requires k <= |operations|
    ensures ParseOps(operations)[..k] == ParseOps(operations[..k])
  {
  }

  /** Parsing one more operation appends its parse. */
  lemma ParseOpsSnoc(operations: seq<string>, j: nat)
    requires j < |operations|
    ensures ParseOps(operations[..j + 1]) == ParseOps(operations[..j]) + [ParseOp(operations[j])]
  {
  }

  /** One more operation after a run that has not thrown: it throws for a missing delay, else adds its timer. */
  lemma RunScheduleSnoc(ops: seq<ParsedOp>, op: ParsedOp)
    requires !RunSchedule(ops).threw
    ensures var prev := RunSchedule(ops);
      RunSchedule(ops + [op]) ==
        if op.MissingDelay? then RunState(prev.timers, true, prev.total)
        else
          var total := AddDelay(prev.total, op.delay);
          RunState(prev.timers + [Timer(TimerDelay(total), op.action, op.className)], false, total)
  {
    assert (ops + [op])[..|ops|] == ops;
  }

  /** A class string without `&` is one run. */
  lemma SingleRun(classString: string)
    ensures '&' !in classString ==>
      var run := RunSchedule(ParseOps(Split(classString, ',')));
      RunsSchedule(ParseClassString(classString)) == Schedule(run.timers, run.threw)
  {
    if '&' !in classString {
      SplitNoSeparator(classString, '&');
      var runs := ParseClassString(classString);
      assert |runs| == 1 && runs[0] == ParseOps(Split(classString, ','));
      assert runs[..0] == [];
    }
  }

  /** `processClassString(element, classString)`: the timers it schedules, in call order, and whether it threw. */
  method ProcessClassString(classString: string) returns (timers: seq<Timer>, threw: bool)
    ensures Schedule(timers, threw) == ClassSchedule(classString)
  {
    var runs := Split(classString, '&');
    ghost var parsed := ParseClassString(classString);
    timers := [];
    threw := false;
    var i := 0;
    while i < |runs|
      invariant 0 <= i <= |runs|
      invariant RunsSchedule(parsed[..i]) == Schedule(timers, false)
    {
      assert parsed[..i + 1][..i] == parsed[..i] && parsed[i] == ParseOps(Split(runs[i], ','));
      var runTimers, runThrew, _ := ScheduleRun(Split(runs[i], ','));
      timers := timers + runTimers;
      if runThrew {
        RunsThrewStays(parsed, i + 1);
        threw := true;
        return;
      }
      i := i + 1;
    }
    assert parsed[..i] == parsed;
  }

  //
  // What the schedule promises
  //

  /** An operation with a delay that parses. */
  predicate Timed(op: ParsedOp)
  {
    op.Op? && op.delay.Some?
  }

  /** The delays of `ops`, added up. */
  function DelaySum(ops: seq<ParsedOp>): nat
    requires forall i :: 0 <= i < |ops| ==> Timed(ops[i])
  {
    if |ops| == 0 then 0
    else
      var init := ops[..|ops| - 1];
      assert forall i :: 0 <= i < |init| ==> init[i] == ops[i];
      assert Timed(ops[|ops| - 1]);
      DelaySum(init) + ops[|ops| - 1].delay.value
  }

  /**
   * A run of timed operations schedules one timer per operation, in order,
   * each at the sum of its own delay and all earlier ones in the run, with
   * the operation's action and class name.
   */
  lemma {:induction false} RunTimesArePrefixSums(ops: seq<ParsedOp>)
    requires forall i :: 0 <= i < |ops| ==> Timed(ops[i])
    ensures var r := RunSchedule(ops);
      !r.threw && r.total == Some(DelaySum(ops)) && |r.timers| == |ops| &&
      forall k :: 0 <= k < |ops| ==> r.timers[k] == Timer(DelaySum(ops[..k + 1]), ops[k].action, ops[k].className)
    decreases |ops|
  {
    if |ops| > 0 {
      var n := |ops| - 1;
      var init := ops[..n];
      assert forall i :: 0 <= i < |init| ==> init[i] == ops[i];
      RunTimesArePrefixSums(init);
      var r := RunSchedule(ops);
      assert ops[..n + 1] == ops;
      forall k | 0 <= k < |ops|
        ensures r.timers[k] == Timer(DelaySum(ops[..k + 1]), ops[k].action, ops[k].className)
      {
        if k < n {
          assert ops[..k + 1] == init[..k + 1];
        }
      }
    }
  }

  /** A run in which every operation has a delay field never throws and schedules exactly one timer per operation. */
  lemma {:induction false} OneTimerPerOperation(ops: seq<ParsedOp>)
    requires forall i :: 0 <= i < |ops| ==> ops[i].Op?
    ensures !RunSchedule(ops).threw && |RunSchedule(ops).timers| == |ops|
    decreases |ops|
  {
    if |ops| > 0 {
      var init := ops[..|ops| - 1];
      assert forall i :: 0 <= i < |init| ==> init[i] == ops[i];
      OneTimerPerOperation(init);
    }
  }

  /**
   * A delay that does not parse makes `totalDelay` `NaN` for the rest of
   * the run: from that operation on every timer fires at 0.
   */
  lemma {:induction false} UnparsedDelayPoisonsRun(ops: seq<ParsedOp>, k: nat)
    requires forall i :: 0 <= i < |ops| ==> ops[i].Op?
    requires k < |ops| && ops[k].delay.None?
    ensures RunSchedule(ops).total.None?
    ensures forall j :: k <= j < |RunSchedule(ops).timers| ==> RunSchedule(ops).timers[j].time == 0
    decreases |ops|
  {
    var n := |ops| - 1;
    var init := ops[..n];
    assert forall i :: 0 <= i < |init| ==> init[i] == ops[i];
    OneTimerPerOperation(init);
    if k < n {
      UnparsedDelayPoisonsRun(init, k);
    }
  }

  /** The first operation without a delay field throws; the timers of the operations before it stay scheduled. */
  lemma ThrowsAtMissingDelay(ops: seq<ParsedOp>, k: nat)
    requires k < |ops| && ops[k].MissingDelay?
    requires forall i :: 0 <= i < k ==> ops[i].Op?
    ensures RunSchedule(ops).threw && |RunSchedule(ops).timers| == k
  {
    var init := ops[..k];
    assert forall i :: 0 <= i < |init| ==> init[i] == ops[i];
    OneTimerPerOperation(init);
    assert ops[..k + 1][..k] == init;
    RunThrewStays(ops, k + 1);
  }

  /**
   * Runs are scheduled independently: after runs that did not throw, the
   * next runs add their own timers, computed from `totalDelay = 0` again.
   */
  lemma {:induction false} RunsIndependent(first: seq<seq<ParsedOp>>, rest: seq<seq<ParsedOp>>)
    requires !RunsSchedule(first).threw
    ensures RunsSchedule(first + rest) ==
      Schedule(RunsSchedule(first).timers + RunsSchedule(rest).timers, RunsSchedule(rest).threw)
    decreases |rest|
  {
    if |rest| == 0 {
      assert first + rest == first;
    } else {
      var n := |rest| - 1;
      assert (first + rest)[..|first + rest| - 1] == first + rest[..n];
      assert (first + rest)[|first + rest| - 1] == rest[n];
      RunsIndependent(first, rest[..n]);
    }
  }

  //
  // The class list the timers act on
  //

  /** `classList` after one timer fires: `add`, `remove`, `toggle`; any other action does nothing. */
  function Applied(classes: set<string>, t: Timer): (r: set<string>)
    ensures r - {t.className} == classes - {t.className}
    ensures t.action == "add" ==> t.className in r
    ensures t.action == "remove" ==> t.className !in r
  {
    if t.action == "add" then classes + {t.className}
    else if t.action == "remove" then classes - {t.className}
    else if t.action == "toggle" then
      (if t.className in classes then classes - {t.className} else classes + {t.className})
    else classes
  }

  /** One timer touches only its own class, and sets it as its action says. */
  lemma AppliedMembership(classes: set<string>, t: Timer, c: string)
    ensures c != t.className ==> (c in Applied(classes, t) <==> c in classes)
    ensures c == t.className ==> (c in Applied(classes, t) <==>
      t.action == "add" || (t.action == "toggle" && c !in classes) ||
      (t.action != "remove" && t.action != "toggle" && c in classes))
  {
  }

  /** Insert a timer after every timer due no later than it: the browser's order of running timers. */
  function InsertByTime(queue: seq<Timer>, t: Timer): (r: seq<Timer>)
    ensures |r| == |queue| + 1
  {
    if |queue| == 0 || queue[|queue| - 1].time <= t.time then queue + [t]
    else InsertByTime(queue[..|queue| - 1], t) + [queue[|queue| - 1]]
  }

  /** The order the timers run in: by time, and in scheduling order among equal times. */
  function FireOrder(timers: seq<Timer>): (r: seq<Timer>)
    ensures |r| == |timers|
  {
    if |timers| == 0 then []
    else InsertByTime(FireOrder(timers[..|timers| - 1]), timers[|timers| - 1])
  }

  /** Timers ordered by the time they fire. */
  predicate ByTime(q: seq<Timer>)
  {
    forall i, j :: 0 <= i < j < |q| ==> q[i].time <= q[j].time
  }

  /** No timer of `q` is due after `bound`. */
  predicate AllBy(q: seq<Timer>, bound: nat)
  {
    forall i :: 0 <= i < |q| ==> q[i].time <= bound
  }

  /** Inserting a timer due by `bound` into a queue due by `bound` gives a queue due by `bound`. */
  lemma {:induction false} InsertByTimeBound(queue: seq<Timer>, t: Timer, bound: nat)
    requires AllBy(queue, bound) && t.time <= bound
    ensures AllBy(InsertByTime(queue, t), bound)
    decreases |queue|
  {
    if |queue| > 0 && queue[|queue| - 1].time > t.time {
      var init := queue[..|queue| - 1];
      assert AllBy(init, bound) by {
        forall i | 0 <= i < |init| ensures init[i].time <= bound {
          assert init[i] == queue[i];
        }
      }
      InsertByTimeBound(init, t, bound);
    }
  }

  /** Inserting keeps the queue ordered by time. */
  lemma {:induction false} InsertByTimeSorted(queue: seq<Timer>, t: Timer)
    requires ByTime(queue)
    ensures ByTime(InsertByTime(queue, t))
    decreases |queue|
  {
    if |queue| > 0 {
      var n := |queue| - 1;
      var last := queue[n];
      if last.time <= t.time {
        assert AllBy(queue, t.time);
      } else {
        var init := queue[..n];
        assert ByTime(init) && AllBy(init, last.time) by {
          forall i | 0 <= i < |init| ensures init[i] == queue[i] {
          }
        }
        InsertByTimeSorted(init, t);
        InsertByTimeBound(init, t, last.time);
      }
    }
  }

  /** Inserting adds exactly the new timer. */
  lemma {:induction false} InsertByTimeAdds(queue: seq<Timer>, t: Timer)
    ensures multiset(InsertByTime(queue, t)) == multiset(queue) + multiset{t}
    decreases |queue|
  {
    if |queue| > 0 && queue[|queue| - 1].time > t.time {
      var n := |queue| - 1;
      InsertByTimeAdds(queue[..n], t);
      assert queue == queue[..n] + [queue[n]];
    }
  }

  /** The fire order holds every timer once and runs them by time. */
  lemma {:induction false} FireOrderSorted(timers: seq<Timer>)
    ensures ByTime(FireOrder(timers))
    ensures multiset(FireOrder(timers)) == multiset(timers)
    decreases |timers|
  {
    if |timers| > 0 {
      var n := |timers| - 1;
      FireOrderSorted(timers[..n]);
      InsertByTimeSorted(FireOrder(timers[..n]), timers[n]);
      InsertByTimeAdds(FireOrder(timers[..n]), timers[n]);
      assert timers == timers[..n] + [timers[n]];
    }
  }

  /** The classes after the timers in the queue run in order. */
  function RunAll(classes: set<string>, q: seq<Timer>): set<string>
  {
    if |q| == 0 then classes else Applied(RunAll(classes, q[..|q| - 1]), q[|q| - 1])
  }

  /** The timers due by `now`, in the order they run. */
  function DueBy(q: seq<Timer>, now: nat): seq<Timer>
  {
    if |q| == 0 then []
    else DueBy(q[..|q| - 1], now) + (if q[|q| - 1].time <= now then [q[|q| - 1]] else [])
  }

  /**
   * The element's classes `now` milliseconds after `processClassString`
   * scheduled `timers`; a class no timer names keeps its membership.
   */
  function ClassesAt(classes: set<string>, timers: seq<Timer>, now: nat): (r: set<string>)
    ensures forall c :: Untouched(timers, c) ==> (c in r <==> c in classes)
  {
    ClassesAtFrame(classes, timers, now);
    RunAll(classes, DueBy(FireOrder(timers), now))
  }

  /** No timer of `q` names class `c`. */
  predicate Untouched(q: seq<Timer>, c: string)
  {
    forall i :: 0 <= i < |q| ==> q[i].className != c
  }

  /** Running timers that do not name `c` leaves its membership alone. */
  lemma {:induction false} RunAllFrame(classes: set<string>, q: seq<Timer>, c: string)
    requires Untouched(q, c)
    ensures c in RunAll(classes, q) <==> c in classes
  {
    if |q| > 0 {
      RunAllFrame(classes, q[..|q| - 1], c);
    }
  }

  /** The timers due by `now` are among the queued ones. */
  lemma {:induction false} DueByWithin(q: seq<Timer>, now: nat)
    ensures multiset(DueBy(q, now)) <= multiset(q)
  {
    if |q| > 0 {
      DueByWithin(q[..|q| - 1], now);
      assert q == q[..|q| - 1] + [q[|q| - 1]];
    }
  }

  /** Firing the due timers in order keeps every class that no timer names. */
  lemma ClassesAtFrame(classes: set<string>, timers: seq<Timer>, now: nat)
    ensures forall c :: Untouched(timers, c) ==> (c in RunAll(classes, DueBy(FireOrder(timers), now)) <==> c in classes)
  {
    var q := DueBy(FireOrder(timers), now);
    FireOrderSorted(timers);
    DueByWithin(FireOrder(timers), now);
    forall c | Untouched(timers, c)
      ensures c in RunAll(classes, q) <==> c in classes
    {
      forall i | 0 <= i < |q| ensures q[i].className != c {
        assert q[i] in multiset(q);
        assert q[i] in multiset(timers);
      }
      RunAllFrame(classes, q, c);
    }
  }

  /** An element's `classList`, as the timers' callbacks update it. */
  class ClassList {
    var classes: set<string>

    constructor(initial: set<string>)
      ensures classes == initial
    {
      classes := initial;
    }

    /** The callback of timer `t`. */
    method Fire(t: Timer)
      modifies this
      ensures classes == Applied(old(classes), t)
    {
      if t.action == "add" {
        classes := classes + {t.className};
      } else if t.action == "remove" {
        classes := classes - {t.className};
      } else if t.action == "toggle" {
        if t.className in classes {
          classes := classes - {t.className};
        } else {
          classes := classes + {t.className};
        }
      }
    }
  }

  /** A field free of the three separators. */
  predicate PlainField(f: string)
  {
    '&' !in f && ',' !in f && ':' !in f
  }

  /**
   * A class string holding one operation with its three fields schedules
   * one timer, at the parsed delay (0 when it does not parse).
   */
  lemma SingleOperation(action: string, className: string, delay: string)
    requires PlainField(action) && PlainField(className) && PlainField(delay)
    ensures ClassSchedule(action + ":" + className + ":" + delay) ==
      Schedule([Timer(TimerDelay(ParseInterval(Some(delay))), action, className)], false)
  {
    var op := action + ":" + className + ":" + delay;
    var parsedOp := Op(action, className, ParseInterval(Some(delay)));
    assert ParseOp(op) == parsedOp by {
      var fields := [action, className, delay];
      assert op == Join(fields, ':') by {
        assert Join(fields[2..], ':') == delay;
        assert Join(fields[1..], ':') == className + [':'] + delay;
      }
      SplitJoin(fields, ':');
    }
    assert ParseClassString(op) == [[parsedOp]] by {
      assert '&' !in op && ',' !in op;
      SplitNoSeparator(op, '&');
      SplitNoSeparator(op, ',');
      assert ParseOps([op]) == [parsedOp];
    }
    var runs := [[parsedOp]];
    var t := Timer(TimerDelay(ParseInterval(Some(delay))), action, className);
    assert runs[..0] == [] && runs[0][..0] == [];
    assert RunSchedule([parsedOp]).timers == [t] by {
      assert [] + [t] == [t];
    }
    assert RunsSchedule(runs) == Schedule([t], false) by {
      assert [] + [t] == [t];
    }
  }

  /**
   * `action:className` with no delay field splits into two fields, so
   * `delay` keeps its default, the number `0`, and the operation throws.
   */
  lemma OneColonThrows(action: string, className: string)
    requires ':' !in action && ':' !in className
    ensures ParseOp(action + ":" + className) == MissingDelay
  {
    var fields := [action, className];
    assert action + ":" + className == Join(fields, ':') by {
      assert Join(fields[1..], ':') == className;
    }
    SplitJoin(fields, ':');
  }

  /** A class string that is one `action:className` operation throws before scheduling anything. */
  lemma OneColonScheduleThrows(action: string, className: string)
    requires PlainField(action) && PlainField(className)
    ensures ClassSchedule(action + ":" + className) == Schedule([], true)
  {
    var op := action + ":" + className;
    OneColonThrows(action, className);
    assert ParseClassString(op) == [[MissingDelay]] by {
      assert '&' !in op && ',' !in op;
      SplitNoSeparator(op, '&');
      SplitNoSeparator(op, ',');
      assert ParseOps([op]) == [MissingDelay];
    }
    var runs := [[MissingDelay]];
    assert runs[..0] == [] && runs[0][..0] == [];
    assert RunSchedule([MissingDelay]) == RunState([], true, Some(0));
    assert RunsSchedule(runs) == Schedule([], true);
  }

  /** `"add:testClass"`, written as the plugin's comment allows: no timer, and the call throws. */
  lemma AddWithoutDelayThrows()
    ensures ClassSchedule("add" + ":" + "testClass") == Schedule([], true)
  {
    assert PlainField("add") && PlainField("testClass");
    OneColonScheduleThrows("add", "testClass");
  }

  /**
   * The parse the plugin's comment describes: the delay field is optional,
   * and a missing one means no delay. An operation with all three fields
   * parses as before.
   */
  function ParseOpOptionalDelay(op: string): (r: ParsedOp)
    ensures ParseOp(op).Op? ==> r == ParseOp(op)
    ensures r.Op? ==> ':' !in r.action && ':' !in r.className
  {
    var fields := Split(op, ':');
    SplitShape(op, ':');
    if |fields| < 2 then MissingDelay
    else if |fields| == 2 then Op(fields[0], fields[1], Some(0))
    else Op(fields[0], fields[1], ParseInterval(Some(fields[2])))
  }

  /** With the optional delay, `action:className` schedules one timer at once and does not throw. */
  lemma OneColonRunsAtZero(action: string, className: string)
    requires ':' !in action && ':' !in className
    ensures ParseOpOptionalDelay(action + ":" + className) == Op(action, className, Some(0))
    ensures RunSchedule([ParseOpOptionalDelay(action + ":" + className)]) ==
      RunState([Timer(0, action, className)], false, Some(0))
  {
    var fields := [action, className];
    assert action + ":" + className == Join(fields, ':') by {
      assert Join(fields[1..], ':') == className;
    }
    SplitJoin(fields, ':');
    var op := Op(action, className, Some(0));
    assert [op][..0] == [];
    assert [] + [Timer(0, action, className)] == [Timer(0, action, className)];
  }

  /** `"add:testClass:100ms"`: one timer, `add testClass` at 100 ms. */
  lemma AddAfterHundredSchedule()
    ensures ClassSchedule("add" + ":" + "testClass" + ":" + "100ms") == Schedule([Timer(100, "add", "testClass")], false)
  {
    assert PlainField("add") && PlainField("testClass") && PlainField("100ms");
    SingleOperation("add", "testClass", "100ms");
    IntervalExamplesMs();
  }

  /** A class the element lacks is still absent 1 ms after `"add:testClass:100ms"`, and present 101 ms after. */
  lemma AddAfterHundredEffect(classes: set<string>)
    requires "testClass" !in classes
    ensures var ts := ClassSchedule("add" + ":" + "testClass" + ":" + "100ms").timers;
      "testClass" !in ClassesAt(classes, ts, 1) && "testClass" in ClassesAt(classes, ts, 101)
  {
    AddAfterHundredSchedule();
    var ts := [Timer(100, "add", "testClass")];
    assert ts[..0] == [];
    assert FireOrder(ts) == ts;
    assert DueBy(ts, 1) == [];
    assert DueBy(ts, 101) == ts;
  }
}

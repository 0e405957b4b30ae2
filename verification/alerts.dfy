/** The condition evaluator of the trading alert engine
    (bit_3/bybit-trading-app/src/lib/alerts/alert-engine.ts): comparison
    operators, the crossover memory, AND/OR combination, per-rule cooldown
    and the severity labels. Market readings and the clock are parameters;
    numbers are exact reals. */
module Alerts {
  import opened Wrappers

  /** The engine's two memories: the last value seen per `symbol_field`
      key, and the time (milliseconds) of each rule's last alert. */
  datatype Memory = Memory(previousValues: map<string, real>, lastAlertTime: map<string, int>)

  datatype Op = Gt | Lt | Eq | Gte | Lte | Between | Crossover | Crossunder | Other(name: string)

  /** A condition's `value`: a number or, as the condition type also
      allows, a list of numbers. */
  datatype Threshold = Num(x: real) | Nums(xs: seq<real>)

  /** Indicator parameters by name (the lookup reads `period`). */
  type Params = map<string, real>

  datatype Condition = Condition(
    field: string, op: Op, value: Threshold, value2: Option<real>,
    timeframe: Option<string>, params: Option<Params>)

  /** The number JavaScript's comparisons and subtraction see for a
      threshold. A list goes through its comma-joined text: the empty list
      is 0, a one-element list its element, and a longer list is NaN,
      here `None`, against which every comparison is false. */
  function ThresholdNumber(t: Threshold): (n: Option<real>)
    ensures t.Num? ==> n == Some(t.x)
    ensures t.Nums? ==> (n.Some? <==> |t.xs| <= 1)
    ensures t.Nums? && |t.xs| == 1 ==> n == Some(t.xs[0])
  {
    match t
    case Num(x) => Some(x)
    case Nums(xs) => if |xs| == 0 then Some(0.0) else if |xs| == 1 then Some(xs[0]) else None
  }

  /** What the field lookup is asked: symbol, field, and the condition's
      timeframe and parameters as given (the lookup applies its own
      defaults). */
  datatype Lookup = Lookup(symbol: string, field: string, timeframe: Option<string>, params: Option<Params>)

  /** What the field lookup returns per request; a missing entry is the
      lookup's `null` (unknown field or failed request). */
  type Readings = map<Lookup, real>

  function LookupFor(symbol: string, c: Condition): Lookup {
    Lookup(symbol, c.field, c.timeframe, c.params)
  }

  function Reading(readings: Readings, symbol: string, c: Condition): Option<real> {
    var q := LookupFor(symbol, c);
    if q in readings then Some(readings[q]) else None
  }

  // ---------------------------------------------------------------------------
  // Crossover memory (checkCrossover)
  // ---------------------------------------------------------------------------

  function CrossKey(symbol: string, field: string): string {
    symbol + "_" + field
  }

  /** Crossing up: at or below the threshold before, above it now. */
  predicate CrossedUp(prev: real, current: real, threshold: real) {
    prev <= threshold && current > threshold
  }

  /** Crossing down: at or above the threshold before, below it now. */
  predicate CrossedDown(prev: real, current: real, threshold: real) {
    prev >= threshold && current < threshold
  }

  /** Store the current value under the key, then compare with the value
      stored before (none on the first observation: no crossing). A NaN
      threshold (`None`) never crosses, but the value is still stored. */
  function CheckCrossover(mem: Memory, symbol: string, field: string, current: real, threshold: Option<real>, up: bool)
    : (r: (Memory, bool))
    ensures r.0.lastAlertTime == mem.lastAlertTime
    ensures r.0.previousValues == mem.previousValues[CrossKey(symbol, field) := current]
    ensures CrossKey(symbol, field) !in mem.previousValues || threshold.None? ==> !r.1
  {
    var key := CrossKey(symbol, field);
    var mem' := mem.(previousValues := mem.previousValues[key := current]);
    if key !in mem.previousValues || threshold.None? then (mem', false)
    else
      var prev := mem.previousValues[key];
      (mem', if up then CrossedUp(prev, current, threshold.value) else CrossedDown(prev, current, threshold.value))
  }

  /** Both directions: a second observation fires exactly when the stored
      and current values straddle the threshold in the asked direction, and
      the two directions never fire together. */
  lemma CrossoverSemantics(mem: Memory, symbol: string, field: string, current: real, threshold: real)
    ensures var key := CrossKey(symbol, field);
      key in mem.previousValues ==>
        && (CheckCrossover(mem, symbol, field, current, Some(threshold), true).1
            <==> mem.previousValues[key] <= threshold < current)
        && (CheckCrossover(mem, symbol, field, current, Some(threshold), false).1
            <==> mem.previousValues[key] >= threshold > current)
    ensures !(CheckCrossover(mem, symbol, field, current, Some(threshold), true).1
              && CheckCrossover(mem, symbol, field, current, Some(threshold), false).1)
  {
  }

  /** Observing the same value twice in a row never reports a crossing. */
  lemma CrossoverNeedsMovement(mem: Memory, symbol: string, field: string, v: real, threshold: Option<real>, up: bool)
    ensures var m1 := CheckCrossover(mem, symbol, field, v, threshold, up).0;
      !CheckCrossover(m1, symbol, field, v, threshold, up).1
  {
  }

  predicate NoUnderscore(s: string) {
    forall i :: 0 <= i < |s| ==> s[i] != '_'
  }

  /** The key separates symbols from fields when the symbol has no `_`
      (a symbol such as `A_B` with field `C` shares memory with symbol `A`
      and field `B_C`). */
  lemma {:induction false} CrossKeyInjective(s1: string, f1: string, s2: string, f2: string)
    requires NoUnderscore(s1) && NoUnderscore(s2)
    ensures CrossKey(s1, f1) == CrossKey(s2, f2) <==> s1 == s2 && f1 == f2
  {
    var k1, k2 := CrossKey(s1, f1), CrossKey(s2, f2);
    if k1 == k2 {
      assert |s1| == |s2| by {
        assert k1[|s1|] == '_' && k2[|s2|] == '_';
      }
      assert s1 == k1[..|s1|] && s2 == k2[..|s2|];
      assert f1 == k1[|s1| + 1..] && f2 == k2[|s2| + 1..];
    }
  }

  /** Shows the collision the key allows when a symbol contains `_`. */
  lemma CrossKeyCollision()
    ensures CrossKey("A_B", "C") == CrossKey("A", "B_C")
  {
  }

  // ---------------------------------------------------------------------------
  // One condition (evaluateCondition)
  // ---------------------------------------------------------------------------

  /** Absolute tolerance of `eq`. */
  const EqTolerance: real := 0.0001

  function Abs(x: real): real {
    if x < 0.0 then -x else x
  }

  /** The comparison operators on a present value against the threshold's
      number (`None` is NaN: every comparison is false); the crossing
      operators and unknown names are handled elsewhere. */
  function Compare(op: Op, v: real, value: Option<real>, value2: Option<real>): bool {
    if value.None? then false
    else
      var t := value.value;
      match op
      case Gt => v > t
      case Lt => v < t
      case Eq => Abs(v - t) < EqTolerance
      case Gte => v >= t
      case Lte => v <= t
      case Between => t <= v && v <= value2.GetOr(0.0)
      case _ => false
  }

  /** Looks up the reading the condition asks for (its symbol, field,
      timeframe and parameters), then compares or checks the crossing. */
  function EvaluateCondition(mem: Memory, readings: Readings, symbol: string, c: Condition): (r: (Memory, bool))
    ensures Reading(readings, symbol, c).None? ==> r == (mem, false)
    ensures !(c.op.Crossover? || c.op.Crossunder?) ==> r.0 == mem
    ensures r.0.lastAlertTime == mem.lastAlertTime
    ensures ThresholdNumber(c.value).None? ==> !r.1
  {
    var v := Reading(readings, symbol, c);
    if v.None? then (mem, false)
    else if c.op.Crossover? || c.op.Crossunder? then
      CheckCrossover(mem, symbol, c.field, v.value, ThresholdNumber(c.value), c.op.Crossover?)
    else (mem, Compare(c.op, v.value, ThresholdNumber(c.value), c.value2))
  }

  /** What each operator means for a present value `v` and a numeric
      threshold `t`: `between` uses 0 as the upper bound when none is
      given, and an unknown operator is false. */
  lemma ConditionMeaning(mem: Memory, readings: Readings, symbol: string, c: Condition)
    requires Reading(readings, symbol, c).Some?
    requires ThresholdNumber(c.value).Some?
    ensures var v := Reading(readings, symbol, c).value;
      var t := ThresholdNumber(c.value).value;
      var r := EvaluateCondition(mem, readings, symbol, c).1;
      && (c.op == Gt ==> (r <==> v > t))
      && (c.op == Lt ==> (r <==> v < t))
      && (c.op == Eq ==> (r <==> t - EqTolerance < v < t + EqTolerance))
      && (c.op == Gte ==> (r <==> v >= t))
      && (c.op == Lte ==> (r <==> v <= t))
      && (c.op == Between && c.value2.None? ==> (r <==> t <= v <= 0.0))
      && (c.op == Between && c.value2.Some? ==> (r <==> t <= v <= c.value2.value))
      && (c.op.Other? ==> !r)
  {
  }

  /** A condition sees only the reading for its own lookup: readings that
      agree there give the same outcome and the same memory. */
  lemma ConditionReadsOwnLookup(mem: Memory, readings: Readings, other: Readings, symbol: string, c: Condition)
    requires (LookupFor(symbol, c) in readings) == (LookupFor(symbol, c) in other)
    requires LookupFor(symbol, c) in readings ==> readings[LookupFor(symbol, c)] == other[LookupFor(symbol, c)]
    ensures EvaluateCondition(mem, readings, symbol, c) == EvaluateCondition(mem, other, symbol, c)
  {
  }

  /** Two crossing conditions on one field share the `symbol_field` slot
      whatever their timeframes and parameters: the second compares its
      reading with the first one's. */
  lemma CrossSlotIgnoresTimeframe(mem: Memory, readings: Readings, symbol: string, c1: Condition, c2: Condition)
    requires c1.field == c2.field
    requires c1.op.Crossover? || c1.op.Crossunder?
    requires c2.op.Crossover?
    requires Reading(readings, symbol, c1).Some? && Reading(readings, symbol, c2).Some?
    requires ThresholdNumber(c2.value).Some?
    ensures var m := EvaluateCondition(mem, readings, symbol, c1).0;
      EvaluateCondition(m, readings, symbol, c2).1
      <==> CrossedUp(Reading(readings, symbol, c1).value, Reading(readings, symbol, c2).value, ThresholdNumber(c2.value).value)
  {
  }

  // ---------------------------------------------------------------------------
  // All conditions of a rule (evaluateConditions)
  // ---------------------------------------------------------------------------

  /** Every condition is evaluated, in list order, each seeing the memory
      the previous ones left; there is no short-circuit. */
  function EvaluateAll(mem: Memory, readings: Readings, symbol: string, conds: seq<Condition>)
    : (r: (Memory, seq<bool>))
    ensures |r.1| == |conds|
    ensures r.0.lastAlertTime == mem.lastAlertTime
  {
    if conds == [] then (mem, [])
    else
      var (m, rs) := EvaluateAll(mem, readings, symbol, conds[..|conds| - 1]);
      var (m', b) := EvaluateCondition(m, readings, symbol, conds[|conds| - 1]);
      (m', rs + [b])
  }

  /** `AND` needs every result; any other logic value means `OR`. */
  function Combine(logic: string, results: seq<bool>): (b: bool)
    ensures logic == "AND" ==> (b <==> forall i :: 0 <= i < |results| ==> results[i])
    ensures logic != "AND" ==> (b <==> exists i :: 0 <= i < |results| && results[i])
  {
    if logic == "AND" then AllTrue(results) else AnyTrue(results)
  }

  function AllTrue(rs: seq<bool>): (b: bool)
    ensures b <==> forall i :: 0 <= i < |rs| ==> rs[i]
  {
    if rs == [] then true else rs[0] && AllTrue(rs[1..])
  }

  function AnyTrue(rs: seq<bool>): (b: bool)
    ensures b <==> exists i :: 0 <= i < |rs| && rs[i]
  {
    if rs == [] then false
    else
      assert forall i :: 0 < i < |rs| ==> rs[i] == rs[1..][i - 1];
      rs[0] || AnyTrue(rs[1..])
  }

  function EvaluateConditions(mem: Memory, readings: Readings, symbol: string, conds: seq<Condition>, logic: string)
    : (r: (Memory, bool))
    ensures conds == [] ==> r == (mem, logic == "AND")
  {
    var (m, rs) := EvaluateAll(mem, readings, symbol, conds);
    (m, Combine(logic, rs))
  }

  /** The i-th result is the i-th condition evaluated against the memory
      left by the conditions before it. */
  lemma {:induction false} EvaluateAllAt(mem: Memory, readings: Readings, symbol: string, conds: seq<Condition>, i: nat)
    requires i < |conds|
    ensures EvaluateAll(mem, readings, symbol, conds).1[i]
      == EvaluateCondition(EvaluateAll(mem, readings, symbol, conds[..i]).0, readings, symbol, conds[i]).1
  {
    if i < |conds| - 1 {
      var init := conds[..|conds| - 1];
      assert init[..i] == conds[..i] && init[i] == conds[i];
      EvaluateAllAt(mem, readings, symbol, init, i);
    } else {
      assert conds[..|conds| - 1] == conds[..i];
    }
  }

  /** Only crossing conditions with a present reading write memory, and
      only under their own `symbol_field` key. */
  lemma {:induction false} EvaluateAllWrites(mem: Memory, readings: Readings, symbol: string, conds: seq<Condition>, key: string)
    requires forall i ::
      0 <= i < |conds| && (conds[i].op.Crossover? || conds[i].op.Crossunder?) ==> CrossKey(symbol, conds[i].field) != key
    ensures var m := EvaluateAll(mem, readings, symbol, conds).0;
      (key in m.previousValues <==> key in mem.previousValues)
      && (key in mem.previousValues ==> m.previousValues[key] == mem.previousValues[key])
  {
    if conds != [] {
      EvaluateAllWrites(mem, readings, symbol, conds[..|conds| - 1], key);
    }
  }

  /** A rule without crossing operators never touches memory, so its
      outcome is the same whatever was observed before. */
  lemma {:induction false} ComparisonsAreStateless(mem: Memory, other: Memory, readings: Readings, symbol: string, conds: seq<Condition>)
    requires forall i :: 0 <= i < |conds| ==> !(conds[i].op.Crossover? || conds[i].op.Crossunder?)
    ensures EvaluateAll(mem, readings, symbol, conds).0 == mem
    ensures EvaluateAll(mem, readings, symbol, conds).1 == EvaluateAll(other, readings, symbol, conds).1
  {
    if conds != [] {
      ComparisonsAreStateless(mem, other, readings, symbol, conds[..|conds| - 1]);
    }
  }

  /** Two RSI conditions that differ only in their period read separate
      values, so `rsi(7) > 70 AND rsi(14) < 30` can hold. */
  lemma PeriodsReadSeparately(mem: Memory)
    ensures var c7 := Condition("rsi", Gt, Num(70.0), None, None, Some(map["period" := 7.0]));
      var c14 := Condition("rsi", Lt, Num(30.0), None, None, Some(map["period" := 14.0]));
      var readings := map[LookupFor("BTC/USDT", c7) := 75.0, LookupFor("BTC/USDT", c14) := 25.0];
      EvaluateConditions(mem, readings, "BTC/USDT", [c7, c14], "AND").1
  {
    var c7 := Condition("rsi", Gt, Num(70.0), None, None, Some(map["period" := 7.0]));
    var c14 := Condition("rsi", Lt, Num(30.0), None, None, Some(map["period" := 14.0]));
    var readings := map[LookupFor("BTC/USDT", c7) := 75.0, LookupFor("BTC/USDT", c14) := 25.0];
    assert LookupFor("BTC/USDT", c7) != LookupFor("BTC/USDT", c14) by {
      assert map["period" := 7.0]["period"] != map["period" := 14.0]["period"];
    }
    assert Reading(readings, "BTC/USDT", c7) == Some(75.0);
    assert Reading(readings, "BTC/USDT", c14) == Some(25.0);
    var r1 := EvaluateCondition(mem, readings, "BTC/USDT", c7);
    var r2 := EvaluateCondition(r1.0, readings, "BTC/USDT", c14);
    assert r1 == (mem, true) && r2 == (mem, true);
    var two := [c7, c14];
    EvaluateAllAt(mem, readings, "BTC/USDT", two, 0);
    EvaluateAllAt(mem, readings, "BTC/USDT", two, 1);
    assert two[..0] == [] && two[..1] == [c7];
    ComparisonsAreStateless(mem, mem, readings, "BTC/USDT", [c7]);
  }

  // ---------------------------------------------------------------------------
  // Cooldown and rule evaluation (checkCooldown, triggerAlert, evaluateRule)
  // ---------------------------------------------------------------------------

  /** Passes when the rule never alerted, or when at least `cooldownSeconds`
      have elapsed since its last alert. */
  function CheckCooldown(mem: Memory, ruleId: string, cooldownSeconds: real, now: int): bool {
    ruleId !in mem.lastAlertTime || (now - mem.lastAlertTime[ruleId]) as real / 1000.0 >= cooldownSeconds
  }

  /** `triggerAlert` first records the alert time for the rule. */
  function RecordAlert(mem: Memory, ruleId: string, now: int): (m: Memory)
    ensures m.previousValues == mem.previousValues
    ensures m.lastAlertTime.Keys == mem.lastAlertTime.Keys + {ruleId}
  {
    mem.(lastAlertTime := mem.lastAlertTime[ruleId := now])
  }

  /** Recording an alert restarts the rule's clock: afterwards the cooldown
      passes at `later` exactly when `later - now` milliseconds reach the
      cooldown, so a positive cooldown blocks the very next instant; other
      rules' cooldowns are unaffected. */
  lemma CooldownRestarts(mem: Memory, ruleId: string, other: string, cooldownSeconds: real, now: int, later: int)
    requires other != ruleId
    ensures CheckCooldown(RecordAlert(mem, ruleId, now), ruleId, cooldownSeconds, later)
      <==> (later - now) as real >= 1000.0 * cooldownSeconds
    ensures cooldownSeconds > 0.0 ==> !CheckCooldown(RecordAlert(mem, ruleId, now), ruleId, cooldownSeconds, now)
    ensures CheckCooldown(RecordAlert(mem, ruleId, now), other, cooldownSeconds, later)
      == CheckCooldown(mem, other, cooldownSeconds, later)
  {
  }

  /** Symbols watched when a rule names none. */
  const DefaultSymbols: seq<string> := ["BTC/USDT", "ETH/USDT", "SOL/USDT"]

  datatype Rule = Rule(id: string, symbol: Option<string>, conditions: seq<Condition>, logic: string, cooldown: real)

  function RuleSymbols(rule: Rule): (s: seq<string>)
    ensures |s| >= 1
  {
    if rule.symbol.Some? && rule.symbol.value != "" then [rule.symbol.value] else DefaultSymbols
  }

  /** Evaluate the symbols in order, triggering an alert for each whose
      conditions hold. Triggering first records the alert time, a fresh
      clock reading `triggeredAt(s)` taken after the symbol's lookups, so
      it need not equal the cooldown check's instant. `failing` names the
      symbols whose trigger then throws (the ticker request and alert text
      of `generateAlertData`, or the `prisma.alert.create` write; a failing
      action is caught inside `executeAction`), and the rule's `catch`
      skips every later symbol. Returns the memory, the symbols whose alert
      was triggered, and whether the pass was cut short. */
  function EvaluateSymbols(mem: Memory, readings: Readings, rule: Rule, symbols: seq<string>, failing: set<string>, triggeredAt: string -> int)
    : (r: (Memory, seq<string>, bool))
    ensures forall s :: s in r.1 ==> s in symbols
    ensures r.1 == [] ==> r.0.lastAlertTime == mem.lastAlertTime
    ensures r.1 != [] ==> r.0.lastAlertTime == mem.lastAlertTime[rule.id := triggeredAt(r.1[|r.1| - 1])]
    ensures r.2 <==> r.1 != [] && r.1[|r.1| - 1] in failing
    ensures forall i :: 0 <= i < |r.1| - 1 ==> r.1[i] !in failing
  {
    if symbols == [] then (mem, [], false)
    else
      var (m, fired, stopped) := EvaluateSymbols(mem, readings, rule, symbols[..|symbols| - 1], failing, triggeredAt);
      if stopped then (m, fired, true)
      else
        var s := symbols[|symbols| - 1];
        var (m', met) := EvaluateConditions(m, readings, s, rule.conditions, rule.logic);
        if met then (RecordAlert(m', rule.id, triggeredAt(s)), fired + [s], s in failing) else (m', fired, false)
  }

  /** `evaluateRule`: a rule still cooling down does nothing at all;
      otherwise the watched symbols are evaluated (the cooldown is checked
      once, at `now`, so several symbols can fire in one pass); each
      trigger records its own later clock reading `triggeredAt(s)`. */
  function EvaluateRule(mem: Memory, readings: Readings, rule: Rule, failing: set<string>, now: int, triggeredAt: string -> int)
    : (r: (Memory, seq<string>, bool))
    ensures !CheckCooldown(mem, rule.id, rule.cooldown, now) ==> r == (mem, [], false)
    ensures forall s :: s in r.1 ==> s in RuleSymbols(rule)
    ensures r.1 != [] ==> r.0.lastAlertTime == mem.lastAlertTime[rule.id := triggeredAt(r.1[|r.1| - 1])]
  {
    if !CheckCooldown(mem, rule.id, rule.cooldown, now) then (mem, [], false)
    else EvaluateSymbols(mem, readings, rule, RuleSymbols(rule), failing, triggeredAt)
  }

  /** Recording the alert at a later clock reading than the cooldown check
      only delays the next alert: if the later recording lets the rule
      through at `later`, recording at the check's instant would too. When
      `later` comes exactly one cooldown after the check, any delay at all
      blocks the rule, so the lookups' latency can skip a poll. */
  lemma LateTriggerDelaysCooldown(mem: Memory, ruleId: string, cooldownSeconds: real, now: int, triggered: int, later: int)
    requires now <= triggered
    ensures CheckCooldown(RecordAlert(mem, ruleId, triggered), ruleId, cooldownSeconds, later)
      ==> CheckCooldown(RecordAlert(mem, ruleId, now), ruleId, cooldownSeconds, later)
    ensures now < triggered && (later - now) as real == 1000.0 * cooldownSeconds
      ==> CheckCooldown(RecordAlert(mem, ruleId, now), ruleId, cooldownSeconds, later)
          && !CheckCooldown(RecordAlert(mem, ruleId, triggered), ruleId, cooldownSeconds, later)
  {
  }

  /** Until the pass is cut short, a symbol fires exactly when its
      conditions hold against the memory left by the symbols before it;
      once cut short, later symbols change nothing. */
  lemma {:induction false} EvaluateSymbolsFires(mem: Memory, readings: Readings, rule: Rule, symbols: seq<string>, failing: set<string>, triggeredAt: string -> int)
    requires |symbols| > 0
    ensures var before := EvaluateSymbols(mem, readings, rule, symbols[..|symbols| - 1], failing, triggeredAt);
      var after := EvaluateSymbols(mem, readings, rule, symbols, failing, triggeredAt);
      var s := symbols[|symbols| - 1];
      && (!before.2 ==>
            (after.1 == before.1 + [s] <==> EvaluateConditions(before.0, readings, s, rule.conditions, rule.logic).1))
      && (before.2 ==> after == before)
  {
  }

  /** Once a failing trigger cuts the pass short, no further symbol is
      evaluated: appending symbols changes neither memory nor result. */
  lemma {:induction false} StoppedPassIgnoresRest(mem: Memory, readings: Readings, rule: Rule, symbols: seq<string>, more: seq<string>, failing: set<string>, triggeredAt: string -> int)
    requires EvaluateSymbols(mem, readings, rule, symbols, failing, triggeredAt).2
    ensures EvaluateSymbols(mem, readings, rule, symbols + more, failing, triggeredAt)
      == EvaluateSymbols(mem, readings, rule, symbols, failing, triggeredAt)
  {
    if more != [] {
      var init := more[..|more| - 1];
      StoppedPassIgnoresRest(mem, readings, rule, symbols, init, failing, triggeredAt);
      assert (symbols + more)[..|symbols + more| - 1] == symbols + init;
    } else {
      assert symbols + more == symbols;
    }
  }

  // ---------------------------------------------------------------------------
  // Severity (getSeverity)
  // ---------------------------------------------------------------------------

  function Severity(priority: string): (s: string)
    ensures s in {"info", "warning", "error", "critical"}
  {
    if priority == "low" then "info"
    else if priority == "medium" then "warning"
    else if priority == "high" then "error"
    else if priority == "critical" then "critical"
    else "info"
  }

  /** The four known priorities map to four distinct labels, in order;
      anything else is reported like `low`. */
  lemma SeverityTable(p: string)
    ensures Severity("low") == "info" && Severity("medium") == "warning"
    ensures Severity("high") == "error" && Severity("critical") == "critical"
    ensures p !in {"low", "medium", "high", "critical"} ==> Severity(p) == Severity("low")
    ensures Severity(p) == "critical" <==> p == "critical"
  {
  }
}

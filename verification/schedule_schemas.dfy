/** Request shapes of the schedule module: the three rule variants, the create
    and update bodies and the list query, with the checks each schema makes. */
module ScheduleSchemas {
  import opened Wrappers
  import opened Clock

  datatype Action = On | Off

  /** A rule is exactly one of three variants, chosen by its `type` tag. */
  datatype Rule =
    | WindowRule(name: string, days: seq<int>, startTime: string, endTime: string, action: Action)
    | DurationRule(name: string, startTime: string, durationMinutes: int, days: seq<int>, action: Action)
    | CountdownRule(name: string, triggerAfterMinutes: int, action: Action, oneTime: bool)

  const MaxNameLength := 100
  const MaxDurationMinutes := 1440
  const MaxCountdownMinutes := 10080
  const MaxRules := 50

  predicate ValidName(n: string) {
    1 <= |n| <= MaxNameLength
  }

  /** Each listed day is a weekday index 0 (Sunday) to 6; the list may be empty. */
  predicate ValidDays(days: seq<int>) {
    forall i :: 0 <= i < |days| ==> 0 <= days[i] <= 6
  }

  predicate ValidRule(r: Rule) {
    match r
    case WindowRule(name, days, startTime, endTime, _) =>
      ValidName(name) && ValidDays(days) && IsClockTime(startTime) && IsClockTime(endTime)
    case DurationRule(name, startTime, durationMinutes, days, _) =>
      ValidName(name) && IsClockTime(startTime)
      && 1 <= durationMinutes <= MaxDurationMinutes && ValidDays(days)
    case CountdownRule(name, triggerAfterMinutes, _, _) =>
      ValidName(name) && 1 <= triggerAfterMinutes <= MaxCountdownMinutes
  }

  /** A rule object as it arrives in a request body: a `type` tag and whichever
      fields the caller sent. Fields a variant does not declare are ignored. */
  datatype RawRule = RawRule(
    kind: string,
    name: Option<string>,
    days: Option<seq<int>>,
    startTime: Option<string>,
    endTime: Option<string>,
    durationMinutes: Option<int>,
    triggerAfterMinutes: Option<int>,
    action: Option<string>,
    oneTime: Option<bool>)

  function ParseAction(a: Option<string>): (r: Option<Action>)
    ensures r == Some(On) <==> a == Some("on")
    ensures r == Some(Off) <==> a == Some("off")
  {
    match a
    case Some("on") => Some(On)
    case Some("off") => Some(Off)
    case _ => None
  }

  function ActionText(a: Action): string {
    match a
    case On => "on"
    case Off => "off"
  }

  /** The `type` tag of each variant. */
  function KindOf(r: Rule): string {
    match r
    case WindowRule(_, _, _, _, _) => "window"
    case DurationRule(_, _, _, _, _) => "duration"
    case CountdownRule(_, _, _, _) => "countdown"
  }

  /** `raw` carries `r`: the tag names r's variant and every field that variant
      declares was sent with r's value (a countdown's absent `oneTime` standing
      for `true`). Fields the variant does not declare may hold anything. */
  predicate Carries(raw: RawRule, r: Rule) {
    && raw.kind == KindOf(r)
    && raw.name == Some(r.name)
    && raw.action == Some(ActionText(r.action))
    && match r
       case WindowRule(_, days, startTime, endTime, _) =>
         raw.days == Some(days) && raw.startTime == Some(startTime) && raw.endTime == Some(endTime)
       case DurationRule(_, startTime, durationMinutes, days, _) =>
         raw.startTime == Some(startTime) && raw.durationMinutes == Some(durationMinutes) && raw.days == Some(days)
       case CountdownRule(_, triggerAfterMinutes, _, oneTime) =>
         raw.triggerAfterMinutes == Some(triggerAfterMinutes) && raw.oneTime.GetOr(true) == oneTime
  }

  /** The discriminated union: dispatch on `type`, then check that variant's fields.
      A countdown without `oneTime` gets `true`. */
  function ParseRule(raw: RawRule): (r: Option<Rule>)
    ensures r.Some? ==> ValidRule(r.value) && Carries(raw, r.value)
    ensures r.Some? ==> (r.value.WindowRule? <==> raw.kind == "window")
    ensures r.Some? ==> (r.value.DurationRule? <==> raw.kind == "duration")
    ensures r.Some? ==> (r.value.CountdownRule? <==> raw.kind == "countdown")
    ensures raw.kind != "window" && raw.kind != "duration" && raw.kind != "countdown" ==> r.None?
    ensures raw.name.None? || raw.action.None? ==> r.None?
    ensures r.Some? ==> r.value.name == raw.name.value && ParseAction(raw.action) == Some(r.value.action)
    ensures r.Some? && r.value.CountdownRule? ==> r.value.oneTime == raw.oneTime.GetOr(true)
  {
    if raw.name.None? || ParseAction(raw.action).None? || !ValidName(raw.name.value) then None
    else
      var name, action := raw.name.value, ParseAction(raw.action).value;
      if raw.kind == "window" then
        if raw.days.Some? && ValidDays(raw.days.value)
           && raw.startTime.Some? && IsClockTime(raw.startTime.value)
           && raw.endTime.Some? && IsClockTime(raw.endTime.value)
        then Some(WindowRule(name, raw.days.value, raw.startTime.value, raw.endTime.value, action))
        else None
      else if raw.kind == "duration" then
        if raw.startTime.Some? && IsClockTime(raw.startTime.value)
           && raw.durationMinutes.Some? && 1 <= raw.durationMinutes.value <= MaxDurationMinutes
           && raw.days.Some? && ValidDays(raw.days.value)
        then Some(DurationRule(name, raw.startTime.value, raw.durationMinutes.value, raw.days.value, action))
        else None
      else if raw.kind == "countdown" then
        if raw.triggerAfterMinutes.Some? && 1 <= raw.triggerAfterMinutes.value <= MaxCountdownMinutes
        then Some(CountdownRule(name, raw.triggerAfterMinutes.value, action, raw.oneTime.GetOr(true)))
        else None
      else None
  }

  /** The request object a client would send for a rule. */
  function RuleToRaw(r: Rule): RawRule {
    match r
    case WindowRule(name, days, startTime, endTime, action) =>
      RawRule("window", Some(name), Some(days), Some(startTime), Some(endTime),
              None, None, Some(ActionText(action)), None)
    case DurationRule(name, startTime, durationMinutes, days, action) =>
      RawRule("duration", Some(name), Some(days), Some(startTime), None,
              Some(durationMinutes), None, Some(ActionText(action)), None)
    case CountdownRule(name, triggerAfterMinutes, action, oneTime) =>
      RawRule("countdown", Some(name), None, None, None,
              None, Some(triggerAfterMinutes), Some(ActionText(action)), Some(oneTime))
  }

  /** A rule body parses to `r` exactly when `r` is valid and the body carries
      it: the parser keeps every declared field and drops nothing else of use. */
  lemma ParseRuleMeaning(raw: RawRule, r: Rule)
    ensures ParseRule(raw) == Some(r) <==> ValidRule(r) && Carries(raw, r)
  {
    if ValidRule(r) && Carries(raw, r) {
      assert ParseAction(raw.action) == Some(r.action);
      assert raw.name.Some? && ValidName(raw.name.value);
    }
  }

  /** Every valid rule survives being sent and parsed back, and nothing else does. */
  lemma RuleRoundTrip(r: Rule)
    ensures ParseRule(RuleToRaw(r)) == Some(r) <==> ValidRule(r)
  {
  }

  /** The schema bounds, sampled at their edges. */
  lemma RuleBoundsExamples()
    ensures ParseRule(RawRule("duration", Some("d"), Some([]), Some("7:05"), None,
                              Some(1440), None, Some("on"), None)).Some?
    ensures ParseRule(RawRule("duration", Some("d"), Some([]), Some("7:05"), None,
                              Some(1441), None, Some("on"), None)).None?
    ensures ParseRule(RawRule("countdown", Some("c"), None, None, None,
                              None, Some(10080), Some("off"), None)) == Some(CountdownRule("c", 10080, Off, true))
    ensures ParseRule(RawRule("countdown", Some("c"), None, None, None,
                              None, Some(0), Some("off"), None)).None?
    ensures ParseRule(RawRule("window", Some(""), Some([1]), Some("08:00"), Some("09:00"),
                              None, None, Some("on"), None)).None?
  {
    assert IsClockTime("7:05");
  }

  datatype CreateScheduleRequest = CreateScheduleRequest(deviceId: string, timezone: string, rules: seq<Rule>)

  datatype UpdateScheduleRequest = UpdateScheduleRequest(timezone: Option<string>, rules: Option<seq<Rule>>)

  /** List filters. Every value is accepted; the service ignores empty ones. */
  datatype ScheduleListQuery = ScheduleListQuery(deviceId: Option<string>, version: Option<int>)

  /** Parses every rule of a list, failing if any one fails. */
  function ParseRules(raws: seq<RawRule>): (r: Option<seq<Rule>>)
    ensures r.Some? <==> forall i :: 0 <= i < |raws| ==> ParseRule(raws[i]).Some?
    ensures r.Some? ==> |r.value| == |raws|
    ensures r.Some? ==> forall i :: 0 <= i < |raws| ==> ParseRule(raws[i]) == Some(r.value[i])
  {
    if raws == [] then Some([])
    else
      var head, tail := ParseRule(raws[0]), ParseRules(raws[1..]);
      if head.Some? && tail.Some? then Some([head.value] + tail.value) else None
  }

  predicate ValidRuleList(rules: seq<Rule>) {
    1 <= |rules| <= MaxRules && forall i :: 0 <= i < |rules| ==> ValidRule(rules[i])
  }

  /** The create body: non-empty device id and timezone, one to fifty valid rules. */
  function ParseCreate(deviceId: string, timezone: string, rules: seq<RawRule>): (r: Option<CreateScheduleRequest>)
    ensures r.Some? <==>
      deviceId != [] && timezone != [] && 1 <= |rules| <= MaxRules && ParseRules(rules).Some?
    ensures r.Some? ==> r.value.deviceId == deviceId && r.value.timezone == timezone
    ensures r.Some? ==> ValidRuleList(r.value.rules) && Some(r.value.rules) == ParseRules(rules)
  {
    if deviceId == [] || timezone == [] || !(1 <= |rules| <= MaxRules) then None
    else
      match ParseRules(rules)
      case Some(rs) => Some(CreateScheduleRequest(deviceId, timezone, rs))
      case None => None
  }

  /** The update body: both fields optional; a present timezone is non-empty and
      a present rule list holds one to fifty valid rules. */
  function ParseUpdate(timezone: Option<string>, rules: Option<seq<RawRule>>): (r: Option<UpdateScheduleRequest>)
    ensures r.Some? <==>
      (timezone.None? || timezone.value != [])
      && (rules.None? || (1 <= |rules.value| <= MaxRules && ParseRules(rules.value).Some?))
    ensures r.Some? ==> r.value.timezone == timezone && (r.value.rules.Some? <==> rules.Some?)
    ensures r.Some? && r.value.rules.Some? ==>
      ValidRuleList(r.value.rules.value) && Some(r.value.rules.value) == ParseRules(rules.value)
  {
    if timezone.Some? && timezone.value == [] then None
    else
      match rules
      case None => Some(UpdateScheduleRequest(timezone, None))
      case Some(raws) =>
        if !(1 <= |raws| <= MaxRules) then None
        else
          match ParseRules(raws)
          case Some(rs) => Some(UpdateScheduleRequest(timezone, Some(rs)))
          case None => None
  }

  /** The request bodies a client would send for a list of rules. */
  function RulesToRaw(rules: seq<Rule>): (raws: seq<RawRule>)
    ensures |raws| == |rules|
    ensures forall i :: 0 <= i < |rules| ==> raws[i] == RuleToRaw(rules[i])
  {
    seq(|rules|, i requires 0 <= i < |rules| => RuleToRaw(rules[i]))
  }

  /** A list of rules survives being sent and parsed back exactly when every
      rule in it is valid. */
  lemma RulesRoundTrip(rules: seq<Rule>)
    ensures ParseRules(RulesToRaw(rules)) == Some(rules) <==> forall i :: 0 <= i < |rules| ==> ValidRule(rules[i])
  {
    var raws := RulesToRaw(rules);
    forall i | 0 <= i < |rules|
      ensures ParseRule(raws[i]) == Some(rules[i]) <==> ValidRule(rules[i])
    {
      RuleRoundTrip(rules[i]);
    }
    if forall i :: 0 <= i < |rules| ==> ValidRule(rules[i]) {
      var parsed := ParseRules(raws);
      assert parsed.Some?;
      assert parsed.value == rules;
    }
  }

  /** A create body survives being sent and parsed back exactly when it is valid. */
  lemma CreateRoundTrip(req: CreateScheduleRequest)
    ensures ParseCreate(req.deviceId, req.timezone, RulesToRaw(req.rules)) == Some(req) <==>
      req.deviceId != [] && req.timezone != [] && ValidRuleList(req.rules)
  {
    RulesRoundTrip(req.rules);
  }

  /** An update body survives being sent and parsed back exactly when it is valid. */
  lemma UpdateRoundTrip(req: UpdateScheduleRequest)
    ensures var raws := if req.rules.Some? then Some(RulesToRaw(req.rules.value)) else None;
      ParseUpdate(req.timezone, raws) == Some(req) <==>
        (req.timezone.None? || req.timezone.value != [])
        && (req.rules.None? || ValidRuleList(req.rules.value))
  {
    if req.rules.Some? {
      RulesRoundTrip(req.rules.value);
    }
  }

  /** An empty update body is accepted and changes nothing. */
  lemma EmptyUpdateAccepted()
    ensures ParseUpdate(None, None) == Some(UpdateScheduleRequest(None, None))
    ensures ParseUpdate(Some(""), None).None?
    ensures ParseUpdate(None, Some([])).None?
  {
  }
}

/** Versioned schedules: publishing a rule set (create or update) writes a new
    schedule row, compiles its edge list and advances the device's version, all
    as one transition of the store; plus the read-side queries. */
module ScheduleServices {
  import opened Wrappers
  import opened Errors
  import opened Sorting
  import opened Text
  import opened ScheduleSchemas
  import opened Store

  /** Compiled edge lists cover the next fourteen days. */
  const HorizonMs := 14 * 24 * 60 * 60 * 1000

  /** The per-rule expansions into edges. Window and duration rules receive the
      rule, the timezone and the start and end of the horizon; countdown rules
      receive the rule and the compile time. */
  datatype RuleCompilers = RuleCompilers(
    window: (Rule, string, int, int) -> seq<EdgeEvent>,
    duration: (Rule, string, int, int) -> seq<EdgeEvent>,
    countdown: (Rule, int) -> seq<EdgeEvent>)

  /** The expansions as the server ships them: every rule yields no edges. */
  const StubCompilers: RuleCompilers :=
    RuleCompilers((r: Rule, tz: string, a: int, b: int) => [],
                  (r: Rule, tz: string, a: int, b: int) => [],
                  (r: Rule, t: int) => [])

  /** The edges one rule contributes, by its kind. */
  function RuleEdges(c: RuleCompilers, rule: Rule, timezone: string, now: int): seq<EdgeEvent> {
    match rule
    case WindowRule(_, _, _, _, _) => c.window(rule, timezone, now, now + HorizonMs)
    case DurationRule(_, _, _, _, _) => c.duration(rule, timezone, now, now + HorizonMs)
    case CountdownRule(_, _, _, _) => c.countdown(rule, now)
  }

  /** The edges of all rules, concatenated in rule order, before sorting. */
  function RawEdges(c: RuleCompilers, rules: seq<Rule>, timezone: string, now: int): seq<EdgeEvent>
  {
    if rules == [] then []
    else RuleEdges(c, rules[0], timezone, now) + RawEdges(c, rules[1..], timezone, now)
  }

  /** Collecting edges distributes over splitting the rule list. */
  lemma {:induction false} RawEdgesAppend(c: RuleCompilers, a: seq<Rule>, b: seq<Rule>, timezone: string, now: int)
    ensures RawEdges(c, a + b, timezone, now) == RawEdges(c, a, timezone, now) + RawEdges(c, b, timezone, now)
  {
    if a == [] {
      assert a + b == b;
    } else {
      assert (a + b)[0] == a[0];
      assert (a + b)[1..] == a[1..] + b;
      RawEdgesAppend(c, a[1..], b, timezone, now);
    }
  }

  /** Edges are ordered by timestamp alone. */
  predicate EdgeLe(a: EdgeEvent, b: EdgeEvent) {
    a.tsUtc <= b.tsUtc
  }

  lemma EdgeLeIsPreorder()
    ensures TotalPreorder(EdgeLe)
  {
  }

  datatype Compiled = Compiled(edges: seq<EdgeEvent>, validUntil: int)

  /** Compiles a rule set at time `now`: the edges of every rule, in
      non-decreasing timestamp order, valid for the fourteen-day horizon. */
  function Compile(c: RuleCompilers, rules: seq<Rule>, timezone: string, now: int): (r: Compiled)
    ensures forall i, j :: 0 <= i < j < |r.edges| ==> r.edges[i].tsUtc <= r.edges[j].tsUtc
    ensures multiset(r.edges) == multiset(RawEdges(c, rules, timezone, now))
    ensures r.validUntil == now + HorizonMs
  {
    EdgeLeIsPreorder();
    Compiled(SortBy(RawEdges(c, rules, timezone, now), EdgeLe), now + HorizonMs)
  }

  /** The timestamp sort is stable: edges at the same instant keep the order in
      which their rules produced them. */
  lemma CompileStable(c: RuleCompilers, rules: seq<Rule>, timezone: string, now: int, k: EdgeEvent)
    ensures Ties(Compile(c, rules, timezone, now).edges, EdgeLe, k) == Ties(RawEdges(c, rules, timezone, now), EdgeLe, k)
  {
    EdgeLeIsPreorder();
    SortStable(RawEdges(c, rules, timezone, now), EdgeLe, k);
  }

  /** So among simultaneous edges, those of earlier rules come first. */
  lemma CompileKeepsRuleOrder(c: RuleCompilers, a: seq<Rule>, b: seq<Rule>, timezone: string, now: int, k: EdgeEvent)
    ensures Ties(Compile(c, a + b, timezone, now).edges, EdgeLe, k)
         == Ties(RawEdges(c, a, timezone, now), EdgeLe, k) + Ties(RawEdges(c, b, timezone, now), EdgeLe, k)
  {
    CompileStable(c, a + b, timezone, now, k);
    RawEdgesAppend(c, a, b, timezone, now);
    TiesAppend(RawEdges(c, a, timezone, now), RawEdges(c, b, timezone, now), EdgeLe, k);
  }

  /** With the shipped stubs no rule set produces an edge. */
  lemma {:induction false} StubsProduceNoEdges(rules: seq<Rule>, timezone: string, now: int)
    ensures RawEdges(StubCompilers, rules, timezone, now) == []
    ensures Compile(StubCompilers, rules, timezone, now).edges == []
  {
    if rules != [] {
      StubsProduceNoEdges(rules[1..], timezone, now);
      assert RuleEdges(StubCompilers, rules[0], timezone, now) == [];
    }
  }

  datatype ScheduleSummary = ScheduleSummary(id: string, version: int, deviceId: string)

  datatype EdgeListSummary = EdgeListSummary(id: string, edgeCount: int, validUntil: int, generatedAt: int)

  datatype CompileStats = CompileStats(rulesProcessed: int, edgesGenerated: int)

  datatype CompilationResponse = CompilationResponse(
    success: bool,
    schedule: ScheduleSummary,
    edgeList: EdgeListSummary,
    stats: CompileStats)

  /** The publication transaction shared by create and update: a schedule row
      and an edge list at the device's next version, and the device advanced to
      it. Every other row keeps its value. */
  function Publish(s: Store, deviceId: string, timezone: string, rules: seq<Rule>, now: int,
                   scheduleId: string, edgeListId: string, c: RuleCompilers): (r: Step<CompilationResponse>)
    requires deviceId in s.devices
    requires scheduleId !in s.schedules && edgeListId !in s.edgeLists
    ensures r.result.Ok? && deviceId in r.store.devices
    ensures var v := s.devices[deviceId].scheduleVersion + 1;
      && r.store.devices.Keys == s.devices.Keys
      && r.store.devices[deviceId] == s.devices[deviceId].(scheduleVersion := v)
      && (forall k :: k in s.devices && k != deviceId ==> r.store.devices[k] == s.devices[k])
    ensures var v := s.devices[deviceId].scheduleVersion + 1;
      && r.store.schedules.Keys == s.schedules.Keys + {scheduleId}
      && r.store.schedules[scheduleId] == Schedule(deviceId, v, timezone, rules, now)
      && (forall k :: k in s.schedules ==> r.store.schedules[k] == s.schedules[k])
    ensures var v := s.devices[deviceId].scheduleVersion + 1;
      && r.store.edgeLists.Keys == s.edgeLists.Keys + {edgeListId}
      && r.store.edgeLists[edgeListId] ==
           EdgeList(deviceId, v, now, now + HorizonMs, Compile(c, rules, timezone, now).edges)
      && (forall k :: k in s.edgeLists ==> r.store.edgeLists[k] == s.edgeLists[k])
    ensures var resp, n := r.result.value, |Compile(c, rules, timezone, now).edges|;
      && resp.success
      && resp.schedule == ScheduleSummary(scheduleId, s.devices[deviceId].scheduleVersion + 1, deviceId)
      && resp.edgeList == EdgeListSummary(edgeListId, n, now + HorizonMs, now)
      && resp.stats == CompileStats(|rules|, n)
  {
    var d := s.devices[deviceId];
    var v := d.scheduleVersion + 1;
    var compiled := Compile(c, rules, timezone, now);
    var sched := Schedule(deviceId, v, timezone, rules, now);
    var list := EdgeList(deviceId, v, now, compiled.validUntil, compiled.edges);
    var t := Store(s.devices[deviceId := d.(scheduleVersion := v)],
                   s.schedules[scheduleId := sched],
                   s.edgeLists[edgeListId := list]);
    Step(t, Ok(CompilationResponse(
      true,
      ScheduleSummary(scheduleId, v, deviceId),
      EdgeListSummary(edgeListId, |compiled.edges|, compiled.validUntil, now),
      CompileStats(|rules|, |compiled.edges|))))
  }

  /** Publishes the request's rules for its device. An unknown device fails and
      nothing is written. `scheduleId` and `edgeListId` are the ids the database
      assigns to the two new rows. */
  function CreateSchedule(s: Store, data: CreateScheduleRequest, now: int,
                          scheduleId: string, edgeListId: string, c: RuleCompilers): (r: Step<CompilationResponse>)
    requires scheduleId !in s.schedules && edgeListId !in s.edgeLists
    ensures data.deviceId !in s.devices <==> r == Step(s, Err(DeviceNotFound))
    ensures data.deviceId in s.devices ==>
      && r.result.Ok?
      && data.deviceId in r.store.devices
      && r.store.devices[data.deviceId].scheduleVersion == s.devices[data.deviceId].scheduleVersion + 1
      && scheduleId in r.store.schedules
      && r.store.schedules[scheduleId].version == r.store.devices[data.deviceId].scheduleVersion
      && r.store.schedules[scheduleId].rules == data.rules
      && r.store.schedules[scheduleId].timezone == data.timezone
      && r.result.value.stats.rulesProcessed == |data.rules|
    ensures data.deviceId in s.devices ==>
      r == Publish(s, data.deviceId, data.timezone, data.rules, now, scheduleId, edgeListId, c)
  {
    if data.deviceId !in s.devices then Step(s, Err(DeviceNotFound))
    else Publish(s, data.deviceId, data.timezone, data.rules, now, scheduleId, edgeListId, c)
  }

  /** Publishes a new version derived from an existing schedule row: omitted
      fields are inherited from that row, the row itself is left in place, and
      the version follows the device's current one (not the row's). The
      database's foreign key guarantees the row's device exists. */
  function UpdateSchedule(s: Store, scheduleId: string, data: UpdateScheduleRequest, now: int,
                          newScheduleId: string, edgeListId: string, c: RuleCompilers): (r: Step<CompilationResponse>)
    requires scheduleId in s.schedules ==> s.schedules[scheduleId].deviceId in s.devices
    requires newScheduleId !in s.schedules && edgeListId !in s.edgeLists
    ensures scheduleId !in s.schedules <==> r == Step(s, Err(ScheduleNotFound))
    ensures scheduleId in s.schedules ==>
      var prev, id := s.schedules[scheduleId], s.schedules[scheduleId].deviceId;
      var rules := data.rules.GetOr(prev.rules);
      && r.result.Ok?
      && id in r.store.devices && newScheduleId in r.store.schedules
      && r.store.devices[id].scheduleVersion == s.devices[id].scheduleVersion + 1
      && r.store.schedules[newScheduleId].version == r.store.devices[id].scheduleVersion
      && r.store.schedules[newScheduleId].timezone == data.timezone.GetOr(prev.timezone)
      && r.store.schedules[newScheduleId].rules == rules
      && scheduleId in r.store.schedules && r.store.schedules[scheduleId] == prev
      && r.result.value.stats.rulesProcessed == |rules|
    ensures scheduleId in s.schedules ==>
      var prev := s.schedules[scheduleId];
      r == Publish(s, prev.deviceId, data.timezone.GetOr(prev.timezone), data.rules.GetOr(prev.rules),
                   now, newScheduleId, edgeListId, c)
  {
    if scheduleId !in s.schedules then Step(s, Err(ScheduleNotFound))
    else
      var prev := s.schedules[scheduleId];
      Publish(s, prev.deviceId, data.timezone.GetOr(prev.timezone), data.rules.GetOr(prev.rules),
              now, newScheduleId, edgeListId, c)
  }

  /** Removes exactly the one schedule row; the device's version and its edge
      lists are untouched. */
  function DeleteSchedule(s: Store, scheduleId: string): (r: Step<()>)
    ensures scheduleId !in s.schedules <==> r == Step(s, Err(RecordNotFound))
    ensures scheduleId in s.schedules ==>
      && r.result.Ok?
      && r.store.schedules.Keys == s.schedules.Keys - {scheduleId}
      && (forall k :: k in r.store.schedules ==> r.store.schedules[k] == s.schedules[k])
      && r.store.devices == s.devices && r.store.edgeLists == s.edgeLists
  {
    if scheduleId !in s.schedules then Step(s, Err(RecordNotFound))
    else Step(s.(schedules := s.schedules - {scheduleId}), Ok(()))
  }

  datatype DeviceRef = DeviceRef(id: string, name: string)

  datatype ScheduleResponse = ScheduleResponse(
    id: string,
    deviceId: string,
    version: int,
    timezone: string,
    rules: seq<Rule>,
    createdAt: int,
    device: Option<DeviceRef>)

  /** A schedule row as the API shows it, with its device's id and name when
      that device is on file. */
  function FormatSchedule(s: Store, id: string, sch: Schedule): (v: ScheduleResponse)
    ensures v.id == id && v.deviceId == sch.deviceId && v.version == sch.version
    ensures v.timezone == sch.timezone && v.rules == sch.rules && v.createdAt == sch.createdAt
    ensures v.device.Some? <==> sch.deviceId in s.devices
    ensures v.device.Some? ==> v.device.value == DeviceRef(sch.deviceId, s.devices[sch.deviceId].name)
  {
    var device := if sch.deviceId in s.devices then Some(DeviceRef(sch.deviceId, s.devices[sch.deviceId].name)) else None;
    ScheduleResponse(id, sch.deviceId, sch.version, sch.timezone, sch.rules, sch.createdAt, device)
  }

  function GetScheduleById(s: Store, scheduleId: string): (r: Option<ScheduleResponse>)
    ensures r.None? <==> scheduleId !in s.schedules
    ensures r.Some? ==> r.value == FormatSchedule(s, scheduleId, s.schedules[scheduleId])
  {
    if scheduleId in s.schedules then Some(FormatSchedule(s, scheduleId, s.schedules[scheduleId])) else None
  }

  /** The list filters. An absent or empty device id and an absent or zero
      version do not filter, as falsy values in the query are skipped. */
  predicate MatchesQuery(sch: Schedule, query: ScheduleListQuery) {
    && (query.deviceId.None? || query.deviceId.value == [] || sch.deviceId == query.deviceId.value)
    && (query.version.None? || query.version.value == 0 || sch.version == query.version.value)
  }

  /** Device id ascending, then version descending. */
  predicate ScheduleOrder(a: ScheduleResponse, b: ScheduleResponse) {
    TextLess(a.deviceId, b.deviceId) || (a.deviceId == b.deviceId && a.version >= b.version)
  }

  lemma ScheduleOrderIsPreorder()
    ensures TotalPreorder(ScheduleOrder)
  {
    forall a: ScheduleResponse, b: ScheduleResponse
      ensures ScheduleOrder(a, b) || ScheduleOrder(b, a)
    {
      TextLessTrichotomy(a.deviceId, b.deviceId);
    }
    forall a: ScheduleResponse, b: ScheduleResponse, c: ScheduleResponse
        | ScheduleOrder(a, b) && ScheduleOrder(b, c)
      ensures ScheduleOrder(a, c)
    {
      if TextLess(a.deviceId, b.deviceId) && TextLess(b.deviceId, c.deviceId) {
        TextLessTransitive(a.deviceId, b.deviceId, c.deviceId);
      }
    }
  }

  /** The matching schedules, each once, in no particular order. */
  method CollectSchedules(s: Store, query: ScheduleListQuery) returns (picked: seq<ScheduleResponse>)
    ensures Distinct(picked)
    ensures forall v :: v in picked ==>
      v.id in s.schedules && MatchesQuery(s.schedules[v.id], query) && v == FormatSchedule(s, v.id, s.schedules[v.id])
    ensures forall id :: id in s.schedules && MatchesQuery(s.schedules[id], query) ==>
      FormatSchedule(s, id, s.schedules[id]) in picked
  {
    var rest := s.schedules.Keys;
    picked := [];
    while rest != {}
      invariant rest <= s.schedules.Keys
      invariant forall v :: v in picked ==>
        v.id in s.schedules && v.id !in rest && MatchesQuery(s.schedules[v.id], query)
        && v == FormatSchedule(s, v.id, s.schedules[v.id])
      invariant forall id :: id in s.schedules && id !in rest && MatchesQuery(s.schedules[id], query) ==>
        FormatSchedule(s, id, s.schedules[id]) in picked
      invariant Distinct(picked)
      decreases rest
    {
      var id :| id in rest;
      if MatchesQuery(s.schedules[id], query) {
        picked := picked + [FormatSchedule(s, id, s.schedules[id])];
      }
      rest := rest - {id};
    }
  }

  /** Every matching schedule exactly once, by device id and then newest version first. */
  method GetSchedules(s: Store, query: ScheduleListQuery) returns (r: seq<ScheduleResponse>)
    ensures forall i, j :: 0 <= i < j < |r| ==>
      TextLess(r[i].deviceId, r[j].deviceId) || (r[i].deviceId == r[j].deviceId && r[i].version >= r[j].version)
    ensures forall v :: v in r ==>
      v.id in s.schedules && MatchesQuery(s.schedules[v.id], query) && v == FormatSchedule(s, v.id, s.schedules[v.id])
    ensures forall id :: id in s.schedules && MatchesQuery(s.schedules[id], query) ==>
      FormatSchedule(s, id, s.schedules[id]) in r
    ensures forall i, j :: 0 <= i < j < |r| ==> r[i].id != r[j].id
  {
    var picked := CollectSchedules(s, query);
    ScheduleOrderIsPreorder();
    r := SortBy(picked, ScheduleOrder);
    PermutationKeepsDistinct(picked, r);
    assert forall v :: v in r <==> v in picked by {
      forall v
        ensures v in r <==> v in picked
      {
        assert v in r <==> v in multiset(r);
        assert v in picked <==> v in multiset(picked);
      }
    }
  }

  datatype EdgeListResponse = EdgeListResponse(
    id: string,
    deviceId: string,
    scheduleVersion: int,
    generatedAt: int,
    validUntil: int,
    edges: seq<EdgeEvent>)

  /** The device's edge lists, narrowed to one version when a non-zero version
      is asked for. */
  predicate EdgeListMatches(e: EdgeList, deviceId: string, version: Option<int>) {
    e.deviceId == deviceId && (version.None? || version.value == 0 || e.scheduleVersion == version.value)
  }

  /** `k` names a matching edge list of the highest version among the matches. */
  ghost predicate IsLatestMatch(s: Store, deviceId: string, version: Option<int>, k: string) {
    && k in s.edgeLists
    && EdgeListMatches(s.edgeLists[k], deviceId, version)
    && forall j :: j in s.edgeLists && EdgeListMatches(s.edgeLists[j], deviceId, version) ==>
         s.edgeLists[j].scheduleVersion <= s.edgeLists[k].scheduleVersion
  }

  function EdgeListView(id: string, e: EdgeList): EdgeListResponse {
    EdgeListResponse(id, e.deviceId, e.scheduleVersion, e.generatedAt, e.validUntil, e.edges)
  }

  /** The newest matching edge list, or nothing when none matches. */
  method GetCompiledEdgeList(s: Store, deviceId: string, version: Option<int>) returns (r: Option<EdgeListResponse>)
    ensures r.None? <==> forall k :: k in s.edgeLists ==> !EdgeListMatches(s.edgeLists[k], deviceId, version)
    ensures r.Some? ==> IsLatestMatch(s, deviceId, version, r.value.id)
    ensures r.Some? ==> r.value == EdgeListView(r.value.id, s.edgeLists[r.value.id])
  {
    var rest := s.edgeLists.Keys;
    r := None;
    while rest != {}
      invariant rest <= s.edgeLists.Keys
      invariant r.None? ==>
        forall k :: k in s.edgeLists && k !in rest ==> !EdgeListMatches(s.edgeLists[k], deviceId, version)
      invariant r.Some? ==>
        && r.value.id in s.edgeLists
        && EdgeListMatches(s.edgeLists[r.value.id], deviceId, version)
        && r.value == EdgeListView(r.value.id, s.edgeLists[r.value.id])
        && forall k :: k in s.edgeLists && k !in rest && EdgeListMatches(s.edgeLists[k], deviceId, version) ==>
             s.edgeLists[k].scheduleVersion <= r.value.scheduleVersion
      decreases rest
    {
      var k :| k in rest;
      var e := s.edgeLists[k];
      if EdgeListMatches(e, deviceId, version) && (r.None? || e.scheduleVersion > r.value.scheduleVersion) {
        r := Some(EdgeListView(k, e));
      }
      rest := rest - {k};
    }
  }

  /** Publishing keeps the publication invariant: the device's new version has
      its edge list, and nothing is left ahead of the device. */
  lemma PublishKeepsConsistent(s: Store, deviceId: string, timezone: string, rules: seq<Rule>, now: int,
                               scheduleId: string, edgeListId: string, c: RuleCompilers)
    requires Consistent(s) && deviceId in s.devices
    requires scheduleId !in s.schedules && edgeListId !in s.edgeLists
    ensures Consistent(Publish(s, deviceId, timezone, rules, now, scheduleId, edgeListId, c).store)
    ensures ChipIdsUnique(s) ==> ChipIdsUnique(Publish(s, deviceId, timezone, rules, now, scheduleId, edgeListId, c).store)
    ensures ReferencesValid(s) ==> ReferencesValid(Publish(s, deviceId, timezone, rules, now, scheduleId, edgeListId, c).store)
  {
    var t := Publish(s, deviceId, timezone, rules, now, scheduleId, edgeListId, c).store;
    PublishFrame(s, deviceId, timezone, rules, now, scheduleId, edgeListId, c);
    PublishedFromKeepsInvariants(s, t, deviceId, scheduleId, edgeListId);
  }

  lemma PublishedFromKeepsInvariants(s: Store, t: Store, deviceId: string, scheduleId: string, edgeListId: string)
    requires Consistent(s) && PublishedFrom(s, t, deviceId, scheduleId, edgeListId)
    ensures Consistent(t)
    ensures ChipIdsUnique(s) ==> ChipIdsUnique(t)
    ensures ReferencesValid(s) ==> ReferencesValid(t)
  {
    BumpKeepsPublished(s, t, deviceId, scheduleId, edgeListId);
    BumpKeepsEdgeListsBehind(s, t, deviceId, scheduleId, edgeListId);
    BumpKeepsSchedulesBehind(s, t, deviceId, scheduleId, edgeListId);
    if ChipIdsUnique(s) {
      BumpKeepsChipIds(s, t, deviceId, scheduleId, edgeListId);
    }
    if ReferencesValid(s) {
      BumpKeepsReferences(s, t, deviceId, scheduleId, edgeListId);
    }
  }

  /** What a publication does to the tables, in the terms the invariant proofs use. */
  lemma PublishFrame(s: Store, deviceId: string, timezone: string, rules: seq<Rule>, now: int,
                     scheduleId: string, edgeListId: string, c: RuleCompilers)
    requires deviceId in s.devices
    requires scheduleId !in s.schedules && edgeListId !in s.edgeLists
    ensures PublishedFrom(s, Publish(s, deviceId, timezone, rules, now, scheduleId, edgeListId, c).store,
                          deviceId, scheduleId, edgeListId)
  {
  }

  /** `t` is `s` after publishing for `deviceId` under the new ids. */
  ghost predicate PublishedFrom(s: Store, t: Store, deviceId: string, scheduleId: string, edgeListId: string) {
    && VersionBumped(s, t, deviceId)
    && t.schedules.Keys == s.schedules.Keys + {scheduleId}
    && (forall k :: k in s.schedules ==> t.schedules[k] == s.schedules[k])
    && t.schedules[scheduleId].deviceId == deviceId
    && t.schedules[scheduleId].version == t.devices[deviceId].scheduleVersion
    && t.edgeLists.Keys == s.edgeLists.Keys + {edgeListId}
    && (forall k :: k in s.edgeLists ==> t.edgeLists[k] == s.edgeLists[k])
    && t.edgeLists[edgeListId].deviceId == deviceId
    && t.edgeLists[edgeListId].scheduleVersion == t.devices[deviceId].scheduleVersion
    && t.devices[deviceId].chipId == s.devices[deviceId].chipId
  }

  /** The device tables before and after a publication: only `deviceId` moves,
      and only its version, upwards. */
  ghost predicate VersionBumped(s: Store, t: Store, deviceId: string) {
    && deviceId in s.devices
    && t.devices.Keys == s.devices.Keys
    && t.devices[deviceId].scheduleVersion >= s.devices[deviceId].scheduleVersion
    && (forall k :: k in s.devices && k != deviceId ==> t.devices[k] == s.devices[k])
  }

  lemma BumpKeepsChipIds(s: Store, t: Store, deviceId: string, scheduleId: string, edgeListId: string)
    requires ChipIdsUnique(s) && PublishedFrom(s, t, deviceId, scheduleId, edgeListId)
    ensures ChipIdsUnique(t)
  {
    forall a, b | a in t.devices && b in t.devices && a != b
      ensures t.devices[a].chipId != t.devices[b].chipId
    {
      assert t.devices[a].chipId == s.devices[a].chipId;
      assert t.devices[b].chipId == s.devices[b].chipId;
    }
  }

  lemma BumpKeepsReferences(s: Store, t: Store, deviceId: string, scheduleId: string, edgeListId: string)
    requires ReferencesValid(s) && PublishedFrom(s, t, deviceId, scheduleId, edgeListId)
    ensures ReferencesValid(t)
  {
    forall k | k in t.schedules
      ensures t.schedules[k].deviceId in t.devices
    {
      if k != scheduleId {
        assert s.schedules[k].deviceId in s.devices;
      }
    }
    forall k | k in t.edgeLists
      ensures t.edgeLists[k].deviceId in t.devices
    {
      if k != edgeListId {
        assert s.edgeLists[k].deviceId in s.devices;
      }
    }
  }

  lemma BumpKeepsPublished(s: Store, t: Store, deviceId: string, scheduleId: string, edgeListId: string)
    requires CurrentVersionsPublished(s) && PublishedFrom(s, t, deviceId, scheduleId, edgeListId)
    ensures CurrentVersionsPublished(t)
  {
    forall x | x in t.devices && t.devices[x].scheduleVersion > 0
      ensures HasEdgeListFor(t, x)
    {
      if x != deviceId {
        assert HasEdgeListFor(s, x);
        var k :| k in s.edgeLists && s.edgeLists[k].deviceId == x
                 && s.edgeLists[k].scheduleVersion == s.devices[x].scheduleVersion;
        assert t.edgeLists[k] == s.edgeLists[k];
      }
    }
  }

  lemma BumpKeepsEdgeListsBehind(s: Store, t: Store, deviceId: string, scheduleId: string, edgeListId: string)
    requires EdgeListsNotAhead(s) && PublishedFrom(s, t, deviceId, scheduleId, edgeListId)
    ensures EdgeListsNotAhead(t)
  {
    forall k | k in t.edgeLists && t.edgeLists[k].deviceId in t.devices
      ensures t.edgeLists[k].scheduleVersion <= t.devices[t.edgeLists[k].deviceId].scheduleVersion
    {
      if k != edgeListId {
        assert t.edgeLists[k] == s.edgeLists[k];
      }
    }
  }

  lemma BumpKeepsSchedulesBehind(s: Store, t: Store, deviceId: string, scheduleId: string, edgeListId: string)
    requires SchedulesNotAhead(s) && PublishedFrom(s, t, deviceId, scheduleId, edgeListId)
    ensures SchedulesNotAhead(t)
  {
    forall k | k in t.schedules && t.schedules[k].deviceId in t.devices
      ensures t.schedules[k].version <= t.devices[t.schedules[k].deviceId].scheduleVersion
    {
      if k != scheduleId {
        assert t.schedules[k] == s.schedules[k];
      }
    }
  }

  /** After publishing, the new edge list is the device's newest one. */
  lemma PublishBecomesLatest(s: Store, deviceId: string, timezone: string, rules: seq<Rule>, now: int,
                             scheduleId: string, edgeListId: string, c: RuleCompilers)
    requires Consistent(s) && deviceId in s.devices
    requires scheduleId !in s.schedules && edgeListId !in s.edgeLists
    ensures IsLatestMatch(Publish(s, deviceId, timezone, rules, now, scheduleId, edgeListId, c).store,
                          deviceId, None, edgeListId)
  {
    var t := Publish(s, deviceId, timezone, rules, now, scheduleId, edgeListId, c).store;
    forall j | j in t.edgeLists && EdgeListMatches(t.edgeLists[j], deviceId, None)
      ensures t.edgeLists[j].scheduleVersion <= t.edgeLists[edgeListId].scheduleVersion
    {
      if j != edgeListId {
        assert t.edgeLists[j] == s.edgeLists[j];
      }
    }
  }

  lemma CreateKeepsInvariants(s: Store, data: CreateScheduleRequest, now: int,
                              scheduleId: string, edgeListId: string, c: RuleCompilers)
    requires Consistent(s) && ChipIdsUnique(s) && ReferencesValid(s)
    requires scheduleId !in s.schedules && edgeListId !in s.edgeLists
    ensures var t := CreateSchedule(s, data, now, scheduleId, edgeListId, c).store;
      Consistent(t) && ChipIdsUnique(t) && ReferencesValid(t)
  {
    if data.deviceId in s.devices {
      PublishKeepsConsistent(s, data.deviceId, data.timezone, data.rules, now, scheduleId, edgeListId, c);
    }
  }

  /** Under the foreign keys an update is always callable, and it keeps every
      invariant, so any sequence of calls can be chained. */
  lemma UpdateKeepsInvariants(s: Store, scheduleId: string, data: UpdateScheduleRequest, now: int,
                              newScheduleId: string, edgeListId: string, c: RuleCompilers)
    requires Consistent(s) && ChipIdsUnique(s) && ReferencesValid(s)
    requires newScheduleId !in s.schedules && edgeListId !in s.edgeLists
    ensures scheduleId in s.schedules ==> s.schedules[scheduleId].deviceId in s.devices
    ensures var t := UpdateSchedule(s, scheduleId, data, now, newScheduleId, edgeListId, c).store;
      Consistent(t) && ChipIdsUnique(t) && ReferencesValid(t)
  {
    if scheduleId in s.schedules {
      var prev := s.schedules[scheduleId];
      PublishKeepsConsistent(s, prev.deviceId, data.timezone.GetOr(prev.timezone), data.rules.GetOr(prev.rules),
                             now, newScheduleId, edgeListId, c);
    }
  }

  lemma DeleteKeepsInvariants(s: Store, scheduleId: string)
    requires Consistent(s) && ChipIdsUnique(s) && ReferencesValid(s)
    ensures var t := DeleteSchedule(s, scheduleId).store;
      Consistent(t) && ChipIdsUnique(t) && ReferencesValid(t)
  {
  }

  /** Under the foreign keys every listed schedule shows its device. */
  lemma ListedSchedulesShowTheirDevice(s: Store, id: string)
    requires ReferencesValid(s) && id in s.schedules
    ensures FormatSchedule(s, id, s.schedules[id]).device.Some?
  {
  }

  /** With the shipped stubs a publication reports no edges and counts the rules. */
  lemma StubPublicationReport(s: Store, data: CreateScheduleRequest, now: int,
                              scheduleId: string, edgeListId: string)
    requires scheduleId !in s.schedules && edgeListId !in s.edgeLists
    requires data.deviceId in s.devices
    ensures var resp := CreateSchedule(s, data, now, scheduleId, edgeListId, StubCompilers).result.value;
      && resp.edgeList.edgeCount == 0 && resp.stats.edgesGenerated == 0
      && resp.stats.rulesProcessed == |data.rules|
      && resp.edgeList.validUntil - resp.edgeList.generatedAt == HorizonMs
  {
    StubsProduceNoEdges(data.rules, data.timezone, now);
  }

  /** Two publications for one device advance its version by exactly two, and the
      second schedule row is one version past the first. */
  lemma TwoCreatesAdvanceByTwo(s: Store, data1: CreateScheduleRequest, data2: CreateScheduleRequest,
                               t1: int, t2: int, sid1: string, eid1: string, sid2: string, eid2: string,
                               c: RuleCompilers)
    requires data1.deviceId in s.devices && data2.deviceId == data1.deviceId
    requires sid1 !in s.schedules && eid1 !in s.edgeLists
    requires sid2 !in s.schedules && eid2 !in s.edgeLists && sid2 != sid1 && eid2 != eid1
    ensures var r1 := CreateSchedule(s, data1, t1, sid1, eid1, c);
      var r2 := CreateSchedule(r1.store, data2, t2, sid2, eid2, c);
      && r2.result.Ok?
      && r2.store.devices[data1.deviceId].scheduleVersion == s.devices[data1.deviceId].scheduleVersion + 2
      && r2.result.value.schedule.version == r1.result.value.schedule.version + 1
      && r2.store.schedules[sid1] == r1.store.schedules[sid1]
  {
  }
}

/** The polling coordinator: a device's periodic "what is new" request, the
    admin's queued relay command, and the connectivity classification. */
module PollingServices {
  import opened Wrappers
  import opened Errors
  import opened ScheduleSchemas
  import opened Store

  /** Seen within the last two minutes (four poll cycles): online. */
  const OnlineWithinMs := 2 * 60 * 1000
  /** Not seen for more than five minutes: stale. */
  const StaleAfterMs := 5 * 60 * 1000

  /** What the device reports; the relay state is informational only. */
  datatype PollingQuery = PollingQuery(currentScheduleVersion: Option<int>, currentRelayState: Option<bool>)

  datatype RelayCommand = RelayCommand(action: Action, commandId: string)

  datatype ScheduleUpdate = ScheduleUpdate(version: int, hasNewSchedule: bool, downloadUrl: string)

  datatype PollingResponse = PollingResponse(
    deviceId: string,
    timestamp: int,
    relayCommand: Option<RelayCommand>,
    scheduleUpdate: Option<ScheduleUpdate>,
    config: DeviceConfig,
    serverTime: int)

  /** Where a device fetches its compiled edge list. */
  function CompiledScheduleUrl(deviceId: string): string {
    "/devices/" + deviceId + "/schedule/compiled"
  }

  /** The version the device says it holds; 0 when it says nothing. */
  function ReportedVersion(query: Option<PollingQuery>): int {
    match query
    case Some(q) => q.currentScheduleVersion.GetOr(0)
    case None => 0
  }

  /** One poll. An unknown device fails and nothing changes. Otherwise the queued
      relay command, if any, is delivered once and cleared; a schedule pointer is
      included when the stored version is ahead of the reported one; and
      `lastSeenAt` is stamped. `commandId` is the random tracking id. */
  function HandleDevicePolling(s: Store, deviceId: string, query: Option<PollingQuery>,
                               now: int, commandId: string): (r: Step<PollingResponse>)
    ensures deviceId !in s.devices ==> r == Step(s, Err(DeviceNotFound))
    ensures deviceId in s.devices ==> r.result.Ok?
    ensures r.result.Ok? ==>
      var d, resp := s.devices[deviceId], r.result.value;
      && (resp.relayCommand.Some? <==> d.pendingRelayOn.Some?)
      && (resp.relayCommand.Some? ==>
            resp.relayCommand.value.commandId == commandId
            && (resp.relayCommand.value.action == On <==> d.pendingRelayOn.value))
      && (resp.scheduleUpdate.Some? <==> d.scheduleVersion > ReportedVersion(query))
      && (resp.scheduleUpdate.Some? ==>
            resp.scheduleUpdate.value == ScheduleUpdate(d.scheduleVersion, true, CompiledScheduleUrl(deviceId)))
      && resp.deviceId == deviceId
      && resp.timestamp == now && resp.serverTime == now
      && resp.config == DeviceTimings
    ensures r.result.Ok? ==>
      var d := s.devices[deviceId];
      && r.store.schedules == s.schedules && r.store.edgeLists == s.edgeLists
      && r.store.devices.Keys == s.devices.Keys
      && (forall other :: other in s.devices && other != deviceId ==> r.store.devices[other] == s.devices[other])
      && r.store.devices[deviceId] == d.(lastSeenAt := Some(now), pendingRelayOn := None)
  {
    if deviceId !in s.devices then Step(s, Err(DeviceNotFound))
    else
      var d := s.devices[deviceId];
      var relayCommand :=
        if d.pendingRelayOn.Some?
        then Some(RelayCommand(if d.pendingRelayOn.value then On else Off, commandId))
        else None;
      var scheduleUpdate :=
        if d.scheduleVersion > ReportedVersion(query)
        then Some(ScheduleUpdate(d.scheduleVersion, true, CompiledScheduleUrl(deviceId)))
        else None;
      var seen := d.(lastSeenAt := Some(now),
                     pendingRelayOn := if relayCommand.Some? then None else d.pendingRelayOn);
      var response := PollingResponse(deviceId, now, relayCommand, scheduleUpdate,
                                      DeviceTimings, now);
      Step(s.(devices := s.devices[deviceId := seen]), Ok(response))
  }

  /** Queues a relay command, replacing any earlier one. */
  function SetPendingRelayCommand(s: Store, deviceId: string, relayOn: bool): (r: Step<()>)
    ensures deviceId !in s.devices ==> r == Step(s, Err(RecordNotFound))
    ensures deviceId in s.devices ==>
      && r.result.Ok?
      && r.store == s.(devices := s.devices[deviceId := s.devices[deviceId].(pendingRelayOn := Some(relayOn))])
  {
    if deviceId !in s.devices then Step(s, Err(RecordNotFound))
    else Step(s.(devices := s.devices[deviceId := s.devices[deviceId].(pendingRelayOn := Some(relayOn))]), Ok(()))
  }

  datatype Connectivity = Connectivity(isOnline: bool, isStale: bool, lastSeenAgo: Option<int>)

  /** Threshold classification of the time since the device was last seen;
      `lastSeenAgo` is that time in whole seconds, rounded down. */
  function Classify(lastSeen: Option<int>, now: int): (c: Connectivity)
    ensures c.isOnline <==> lastSeen.Some? && now - lastSeen.value < OnlineWithinMs
    ensures c.isStale <==> lastSeen.None? || now - lastSeen.value > StaleAfterMs
    ensures c.lastSeenAgo.Some? <==> lastSeen.Some?
    ensures lastSeen.Some? ==>
      c.lastSeenAgo.value * 1000 <= now - lastSeen.value < (c.lastSeenAgo.value + 1) * 1000
  {
    match lastSeen
    case None => Connectivity(false, true, None)
    case Some(t) =>
      Connectivity(now - t < OnlineWithinMs, now - t > StaleAfterMs, Some((now - t) / 1000))
  }

  /** A device that is online is never stale; one never seen is stale and offline. */
  lemma OnlineIsNotStale(lastSeen: Option<int>, now: int)
    ensures Classify(lastSeen, now).isOnline ==> !Classify(lastSeen, now).isStale
    ensures lastSeen.None? ==> Classify(lastSeen, now) == Connectivity(false, true, None)
  {
  }

  datatype ConnectivityView = ConnectivityView(
    id: string,
    name: string,
    lastSeenAt: Option<int>,
    lastStatusAt: Option<int>,
    isOnline: bool,
    isStale: bool,
    lastSeenAgo: Option<int>)

  /** The connectivity report of one device; reading it changes nothing. */
  function GetDeviceConnectivity(s: Store, deviceId: string, now: int): (r: Result<ConnectivityView, Error>)
    ensures deviceId !in s.devices <==> r == Err(DeviceNotFound)
    ensures r.Ok? ==>
      var d, c := s.devices[deviceId], Classify(s.devices[deviceId].lastSeenAt, now);
      r.value == ConnectivityView(deviceId, d.name, d.lastSeenAt, d.lastStatusAt, c.isOnline, c.isStale, c.lastSeenAgo)
  {
    if deviceId !in s.devices then Err(DeviceNotFound)
    else
      var d := s.devices[deviceId];
      var c := Classify(d.lastSeenAt, now);
      Ok(ConnectivityView(deviceId, d.name, d.lastSeenAt, d.lastStatusAt, c.isOnline, c.isStale, c.lastSeenAgo))
  }

  /** A command is delivered once: the poll right after it carries no command. */
  lemma SecondPollCarriesNoCommand(s: Store, deviceId: string, q1: Option<PollingQuery>,
                                   q2: Option<PollingQuery>, t1: int, t2: int, c1: string, c2: string)
    requires deviceId in s.devices
    ensures HandleDevicePolling(HandleDevicePolling(s, deviceId, q1, t1, c1).store,
                                deviceId, q2, t2, c2).result.value.relayCommand.None?
  {
  }

  /** Queue "on", poll: the command arrives with action on; poll again: nothing. */
  lemma QueueThenPollTwice(s: Store, deviceId: string, relayOn: bool, t1: int, t2: int, c1: string, c2: string)
    requires deviceId in s.devices
    ensures
      var queued := SetPendingRelayCommand(s, deviceId, relayOn).store;
      var first := HandleDevicePolling(queued, deviceId, None, t1, c1);
      var second := HandleDevicePolling(first.store, deviceId, None, t2, c2);
      && first.result.value.relayCommand == Some(RelayCommand(if relayOn then On else Off, c1))
      && second.result.value.relayCommand.None?
  {
  }

  /** Of two queued commands only the later one is delivered. */
  lemma LastQueuedCommandWins(s: Store, deviceId: string, a: bool, b: bool)
    requires deviceId in s.devices
    ensures SetPendingRelayCommand(SetPendingRelayCommand(s, deviceId, a).store, deviceId, b).store
         == SetPendingRelayCommand(s, deviceId, b).store
  {
  }

  /** Polling touches neither the schedule version nor the chip id, and so keeps
      every store invariant. */
  lemma PollKeepsConsistent(s: Store, deviceId: string, query: Option<PollingQuery>, now: int, commandId: string)
    requires Consistent(s) && ChipIdsUnique(s) && ReferencesValid(s)
    ensures var t := HandleDevicePolling(s, deviceId, query, now, commandId).store;
      Consistent(t) && ChipIdsUnique(t) && ReferencesValid(t)
  {
    if deviceId in s.devices {
      var d := s.devices[deviceId].(lastSeenAt := Some(now), pendingRelayOn := None);
      ConsistentUnderDeviceEdit(s, deviceId, d);
      ChipIdsUnderDeviceEdit(s, deviceId, d);
      ReferencesUnderDeviceTableEdit(s, s.(devices := s.devices[deviceId := d]));
    }
  }

  lemma SetCommandKeepsConsistent(s: Store, deviceId: string, relayOn: bool)
    requires Consistent(s) && ChipIdsUnique(s) && ReferencesValid(s)
    ensures var t := SetPendingRelayCommand(s, deviceId, relayOn).store;
      Consistent(t) && ChipIdsUnique(t) && ReferencesValid(t)
  {
    if deviceId in s.devices {
      var d := s.devices[deviceId].(pendingRelayOn := Some(relayOn));
      ConsistentUnderDeviceEdit(s, deviceId, d);
      ChipIdsUnderDeviceEdit(s, deviceId, d);
      ReferencesUnderDeviceTableEdit(s, s.(devices := s.devices[deviceId := d]));
    }
  }
}

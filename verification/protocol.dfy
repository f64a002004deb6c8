/** Properties of the device protocol that span services: a publication is
    announced on the next poll and served as the device's newest edge list, and
    the two notions of "online" agree where they overlap. */
module Protocol {
  import opened Wrappers
  import opened Store
  import opened ScheduleSchemas
  import opened ScheduleServices
  import opened PollingServices
  import opened DeviceServices

  /** A device still reporting the version it held before a publication is told
      about the new version on its next poll; a device reporting that version
      (or later) is not. */
  lemma PublishThenPoll(s: Store, data: CreateScheduleRequest, t1: int, sid: string, eid: string,
                        c: RuleCompilers, t2: int, commandId: string, relay: Option<bool>, reported: int)
    requires data.deviceId in s.devices
    requires sid !in s.schedules && eid !in s.edgeLists
    ensures var v := s.devices[data.deviceId].scheduleVersion + 1;
      var t := CreateSchedule(s, data, t1, sid, eid, c).store;
      var poll := HandleDevicePolling(t, data.deviceId, Some(PollingQuery(Some(reported), relay)), t2, commandId);
      && poll.result.Ok?
      && (reported < v ==>
            poll.result.value.scheduleUpdate == Some(ScheduleUpdate(v, true, CompiledScheduleUrl(data.deviceId))))
      && (reported >= v ==> poll.result.value.scheduleUpdate.None?)
  {
  }

  /** A device that has never reported a version hears of its first publication. */
  lemma FirstPublicationAnnounced(s: Store, data: CreateScheduleRequest, t1: int, sid: string, eid: string,
                                  c: RuleCompilers, t2: int, commandId: string)
    requires Consistent(s)
    requires data.deviceId in s.devices
    requires sid !in s.schedules && eid !in s.edgeLists
    ensures var t := CreateSchedule(s, data, t1, sid, eid, c).store;
      HandleDevicePolling(t, data.deviceId, None, t2, commandId).result.value.scheduleUpdate.Some?
  {
  }

  /** Under the publication invariant a device past version 0 always has an
      edge list to download, and the newest one is exactly its current version. */
  lemma LatestEdgeListIsCurrent(s: Store, deviceId: string, k: string)
    requires Consistent(s)
    requires deviceId in s.devices && s.devices[deviceId].scheduleVersion > 0
    ensures exists j :: j in s.edgeLists && EdgeListMatches(s.edgeLists[j], deviceId, None)
    ensures IsLatestMatch(s, deviceId, None, k) ==>
      s.edgeLists[k].scheduleVersion == s.devices[deviceId].scheduleVersion
  {
    assert HasEdgeListFor(s, deviceId);
    var j :| j in s.edgeLists && s.edgeLists[j].deviceId == deviceId
             && s.edgeLists[j].scheduleVersion == s.devices[deviceId].scheduleVersion;
    assert EdgeListMatches(s.edgeLists[j], deviceId, None);
  }

  /** Removing a device, whether refused or not, leaves every schedule row's
      device on file, so an update of any row can follow and the invariants
      survive both calls. */
  lemma DeleteDeviceThenUpdate(s: Store, deviceId: string, scheduleId: string, data: UpdateScheduleRequest,
                               now: int, newScheduleId: string, edgeListId: string, c: RuleCompilers)
    requires Consistent(s) && ChipIdsUnique(s) && ReferencesValid(s)
    requires newScheduleId !in s.schedules && edgeListId !in s.edgeLists
    ensures var t := DeleteDevice(s, deviceId).store;
      && (scheduleId in t.schedules ==> t.schedules[scheduleId].deviceId in t.devices)
      && newScheduleId !in t.schedules && edgeListId !in t.edgeLists
      && var u := UpdateSchedule(t, scheduleId, data, now, newScheduleId, edgeListId, c).store;
         Consistent(u) && ChipIdsUnique(u) && ReferencesValid(u)
  {
    DeviceServices.DeleteKeepsInvariants(s, deviceId);
    var t := DeleteDevice(s, deviceId).store;
    ScheduleServices.UpdateKeepsInvariants(t, scheduleId, data, now, newScheduleId, edgeListId, c);
  }

  /** The admin view's five-minute "online" is wider than the connectivity
      report's two-minute one: online there implies online here, and online
      here implies not stale there. */
  lemma OnlineNotionsNest(id: string, d: Device, now: int)
    ensures Classify(d.lastSeenAt, now).isOnline ==> FormatDevice(id, d, now).isOnline
    ensures FormatDevice(id, d, now).isOnline ==> !Classify(d.lastSeenAt, now).isStale
  {
  }

  /** The two notions differ: a device last seen three minutes ago is online in
      the admin view but offline in the connectivity report. */
  lemma OnlineNotionsDiffer(id: string, d: Device)
    requires d.lastSeenAt == Some(0)
    ensures FormatDevice(id, d, 180000).isOnline
    ensures !Classify(d.lastSeenAt, 180000).isOnline
    ensures !Classify(d.lastSeenAt, 180000).isStale
  {
  }
}
